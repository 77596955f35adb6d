/**
 * `version_matches` (src/kpi/version_matches.rs): does a detected cycle fall
 * under a roadmap entry's cycle pattern? A pattern ending in `.x` is a textual
 * prefix test after every trailing `.x` is stripped; any other pattern must
 * agree with the cycle component by component, as far as the shorter of the
 * two dot-split lists goes.
 */
module VersionMatch {
  import opened Text

  /**
   * `trim_end_matches(".x")`: strip every trailing repetition of `.x`. What is
   * removed is exactly `.x.x...`, and what is left no longer ends in `.x`.
   */
  function TrimWildcardSuffix(s: string): (r: string)
    ensures StartsWith(s, r)
    ensures !EndsWith(r, ".x")
    ensures (|s| - |r|) % 2 == 0
    ensures forall i :: |r| <= i < |s| ==> s[i] == (if (i - |r|) % 2 == 0 then '.' else 'x')
    decreases |s|
  {
    if EndsWith(s, ".x") then
      var r := TrimWildcardSuffix(s[..|s| - 2]);
      assert s[..|s| - 2][..|r|] == s[..|r|];
      r
    else s
  }

  /** The zipped component lists agree at every index: `zip(..).all(|(a, b)| a == b)`. */
  predicate ComponentsAgree(parts1: seq<string>, parts2: seq<string>) {
    forall i :: 0 <= i < |parts1| && i < |parts2| ==> parts1[i] == parts2[i]
  }

  function VersionMatches(cycle: string, roadmapVersion: string): bool {
    if EndsWith(roadmapVersion, ".x") then
      StartsWith(cycle, TrimWildcardSuffix(roadmapVersion))
    else
      ComponentsAgree(Split(roadmapVersion, '.'), Split(cycle, '.'))
  }

  /** Every pattern matches itself. */
  lemma MatchesReflexive(s: string)
    ensures VersionMatches(s, s)
  {
    if EndsWith(s, ".x") {
      var base := TrimWildcardSuffix(s);
      assert StartsWith(s, base);
    }
  }

  /** Without a wildcard suffix on either side, matching is symmetric, because `zip` stops at the shorter list. */
  lemma ExactMatchSymmetric(cycle: string, pattern: string)
    requires !EndsWith(cycle, ".x") && !EndsWith(pattern, ".x")
    ensures VersionMatches(cycle, pattern) == VersionMatches(pattern, cycle)
  {
  }

  /** The empty cycle splits into `[""]`, so it never matches an exact pattern whose first component is not empty. */
  lemma EmptyCycleNeverMatchesExact(pattern: string)
    requires !EndsWith(pattern, ".x")
    requires Split(pattern, '.')[0] != ""
    ensures !VersionMatches("", pattern)
  {
    assert Split("", '.') == [""];
  }

  /** A wildcard pattern matches exactly the cycles that start with its base. */
  lemma WildcardExamples()
    ensures VersionMatches("5.3.21", "5.x")
    ensures !VersionMatches("6.0.0", "5.x")
    ensures VersionMatches("50.1", "5.x")
    ensures VersionMatches("5.3.1", "5.x.x")
  {
    assert EndsWith("5.x", ".x");
    assert !EndsWith("5", ".x");
    assert TrimWildcardSuffix("5.x") == "5";
    assert "6.0.0"[..1] == "6" != "5";
    assert EndsWith("5.x.x", ".x");
    assert "5.x.x"[..3] == "5.x";
    assert TrimWildcardSuffix("5.x.x") == "5";
  }

  lemma SplitExamples()
    ensures Split("5.3.31", '.') == ["5", "3", "31"]
    ensures Split("5.3", '.') == ["5", "3"]
    ensures Split("5.4.1", '.') == ["5", "4", "1"]
  {
    SplitJoin(["5", "3", "31"], '.');
    assert Join(["5", "3", "31"], '.') == "5.3.31";
    SplitJoin(["5", "3"], '.');
    assert Join(["5", "3"], '.') == "5.3";
    SplitJoin(["5", "4", "1"], '.');
    assert Join(["5", "4", "1"], '.') == "5.4.1";
  }

  /** An exact pattern agrees component-wise up to the shorter length, in both directions. */
  lemma ExactExamples()
    ensures VersionMatches("5.3.31", "5.3")
    ensures VersionMatches("5.3", "5.3.31")
    ensures !VersionMatches("5.4.1", "5.3")
  {
    SplitExamples();
    assert !EndsWith("5.3", ".x") by { assert "5.3"[1..] == ".3"; }
    assert !EndsWith("5.3.31", ".x") by { assert "5.3.31"[4..] == "31"; }
    assert Split("5.4.1", '.')[1] != Split("5.3", '.')[1];
  }
}
