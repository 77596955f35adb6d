/**
 * `parse_version` (src/kpi/parse_version.rs): read a dotted version into
 * `(major, minor, patch)`. The major component falls back to 0 when it does
 * not parse; minor and patch are absent when missing or unparsable.
 * Components after the third are not looked at.
 */
module VersionTriple {
  import opened Wrappers
  import opened Text

  datatype Triple = Triple(major: nat, minor: Option<nat>, patch: Option<nat>)

  /** Every component of a parsed triple fits in a `u32`. */
  predicate InU32Range(t: Triple) {
    && t.major <= U32_MAX
    && (t.minor.Some? ==> t.minor.value <= U32_MAX)
    && (t.patch.Some? ==> t.patch.value <= U32_MAX)
  }

  function ParseVersion(version: string): (t: Triple)
    ensures InU32Range(t)
    ensures t.minor.Some? ==> |Split(version, '.')| > 1
    ensures t.patch.Some? ==> |Split(version, '.')| > 2
  {
    var parts := Split(version, '.');
    Triple(
      ParseU32(parts[0]).GetOr(0),
      if |parts| > 1 then ParseU32(parts[1]) else None,
      if |parts| > 2 then ParseU32(parts[2]) else None)
  }

  /**
   * A spelling of a triple that `ParseVersion` reads back: absent trailing
   * components are left off, and an absent minor before a present patch is
   * written as the unparsable `x`.
   */
  function FormatVersion(t: Triple): seq<string> {
    var major := [DecimalString(t.major)];
    if t.patch.Some? then
      major + [if t.minor.Some? then DecimalString(t.minor.value) else "x"] + [DecimalString(t.patch.value)]
    else if t.minor.Some? then
      major + [DecimalString(t.minor.value)]
    else
      major
  }

  /** Every triple in range is read back from its spelling. */
  lemma ParseFormatRoundTrip(t: Triple)
    requires InU32Range(t)
    ensures ParseVersion(Join(FormatVersion(t), '.')) == t
  {
    var parts := FormatVersion(t);
    forall i | 0 <= i < |parts| ensures '.' !in parts[i] {
      DigitsHaveNoDot(DecimalString(t.major));
      if t.minor.Some? { DigitsHaveNoDot(DecimalString(t.minor.value)); }
      if t.patch.Some? { DigitsHaveNoDot(DecimalString(t.patch.value)); }
    }
    SplitJoin(parts, '.');
    ParseDecimalString(t.major);
    if t.minor.Some? { ParseDecimalString(t.minor.value); }
    if t.patch.Some? { ParseDecimalString(t.patch.value); }
    assert ParseU32("x") == None;
  }

  lemma DigitsHaveNoDot(s: string)
    requires AllDigits(s)
    ensures '.' !in s
  {
  }

  /** Whatever follows the third component does not change the result. */
  lemma ExtraComponentsIgnored(version: string, rest: string)
    requires |Split(version, '.')| >= 3
    ensures ParseVersion(version + "." + rest) == ParseVersion(version)
  {
    SplitAround(version, rest, '.');
    assert version + "." + rest == version + ['.'] + rest;
  }

  /** The result depends only on the first three dot-separated components. */
  lemma DependsOnFirstThree(v1: string, v2: string)
    requires Split(v1, '.')[..Min3(v1)] == Split(v2, '.')[..Min3(v2)]
    ensures ParseVersion(v1) == ParseVersion(v2)
  {
    var p1, p2 := Split(v1, '.'), Split(v2, '.');
    assert p1[0] == p1[..Min3(v1)][0];
    assert p2[0] == p2[..Min3(v2)][0];
    if |p1| > 1 { assert p1[1] == p1[..Min3(v1)][1]; }
    if |p2| > 1 { assert p2[1] == p2[..Min3(v2)][1]; }
    if |p1| > 2 { assert p1[2] == p1[..Min3(v1)][2]; }
    if |p2| > 2 { assert p2[2] == p2[..Min3(v2)][2]; }
  }

  /** How many leading components are read: at most three. */
  function Min3(v: string): nat {
    var n := |Split(v, '.')|;
    if n < 3 then n else 3
  }

  /** "1.2.3" gives (1, 2, 3). */
  lemma FullVersionExample()
    ensures ParseVersion("1.2.3") == Triple(1, Some(2), Some(3))
  {
    SplitJoin(["1", "2", "3"], '.');
  }

  /** "7" gives (7, none, none). */
  lemma MajorOnlyExample()
    ensures ParseVersion("7") == Triple(7, None, None)
  {
    SplitNoSeparator("7", '.');
  }

  /** An unparsable minor is absent: "1.x" gives (1, none, none). */
  lemma WildcardMinorExample()
    ensures ParseVersion("1.x") == Triple(1, None, None)
  {
    SplitJoin(["1", "x"], '.');
  }

  /** An unparsable major becomes 0. */
  lemma UnparsableMajorExample()
    ensures ParseVersion("v1.2") == Triple(0, Some(2), None)
  {
    SplitJoin(["v1", "2"], '.');
    assert Join(["v1", "2"], '.') == "v1.2";
    assert !IsAsciiDigit("v1"[0]);
  }
}
