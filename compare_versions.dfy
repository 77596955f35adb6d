/**
 * `compare_versions` (src/kpi/compare_versions.rs): the wildcard-aware,
 * component-wise ordering of two dotted version strings. Components are read
 * as 32-bit unsigned numbers (anything unreadable counts as 0), a position
 * where either side holds the wildcard `x` is skipped, the first differing
 * pair decides, and when the shorter list runs out the longer version is the
 * greater one.
 */
module VersionCompare {
  import opened Wrappers
  import opened Text

  /** `std::cmp::Ordering`. */
  datatype Ordering = Less | Equal | Greater {
    /** `Ordering::reverse`. */
    function Reverse(): Ordering {
      match this
      case Less => Greater
      case Equal => Equal
      case Greater => Less
    }
  }

  /** `a.cmp(&b)` on numbers. */
  function CompareNat(a: nat, b: nat): (r: Ordering)
    ensures r == Less <==> a < b
    ensures r == Equal <==> a == b
    ensures r == Greater <==> a > b
  {
    if a < b then Less else if a == b then Equal else Greater
  }

  /** `p.parse::<u32>().unwrap_or(0)`. */
  function ComponentValue(p: string): (n: nat)
    ensures n <= U32_MAX
  {
    ParseU32(p).GetOr(0)
  }

  /** The loop over the zipped component lists, followed by the length tie-break. */
  function CompareParts(parts1: seq<string>, parts2: seq<string>): Ordering
    decreases |parts1|
  {
    if parts1 == [] || parts2 == [] then CompareNat(|parts1|, |parts2|)
    else if parts1[0] == "x" || parts2[0] == "x" then CompareParts(parts1[1..], parts2[1..])
    else
      match CompareNat(ComponentValue(parts1[0]), ComponentValue(parts2[0]))
      case Equal => CompareParts(parts1[1..], parts2[1..])
      case nonEqual => nonEqual
  }

  function CompareVersions(v1: string, v2: string): Ordering {
    CompareParts(Split(v1, '.'), Split(v2, '.'))
  }

  /** Position `i` of the zipped lists does not decide: a wildcard on either side, or equal values. */
  predicate Ties(parts1: seq<string>, parts2: seq<string>, i: nat)
    requires i < |parts1| && i < |parts2|
  {
    parts1[i] == "x" || parts2[i] == "x" || ComponentValue(parts1[i]) == ComponentValue(parts2[i])
  }

  // ---------------------------------------------------------------------------
  // The ordering read off the first deciding position

  /** When a position decides and every earlier one ties, that position's values give the result. */
  lemma {:induction false} FirstDifferenceDecides(parts1: seq<string>, parts2: seq<string>, i: nat)
    requires i < |parts1| && i < |parts2|
    requires forall j :: 0 <= j < i ==> Ties(parts1, parts2, j)
    requires !Ties(parts1, parts2, i)
    ensures CompareParts(parts1, parts2) == CompareNat(ComponentValue(parts1[i]), ComponentValue(parts2[i]))
    decreases i
  {
    if i > 0 {
      assert Ties(parts1, parts2, 0);
      forall j | 0 <= j < i - 1 ensures Ties(parts1[1..], parts2[1..], j) {
        assert Ties(parts1, parts2, j + 1);
      }
      FirstDifferenceDecides(parts1[1..], parts2[1..], i - 1);
    }
  }

  /** When every zipped position ties, the version with more components is the greater. */
  lemma {:induction false} AllTiesCompareLengths(parts1: seq<string>, parts2: seq<string>)
    requires forall j :: 0 <= j < |parts1| && j < |parts2| ==> Ties(parts1, parts2, j)
    ensures CompareParts(parts1, parts2) == CompareNat(|parts1|, |parts2|)
    decreases |parts1|
  {
    if parts1 != [] && parts2 != [] {
      assert Ties(parts1, parts2, 0);
      forall j | 0 <= j < |parts1| - 1 && j < |parts2| - 1 ensures Ties(parts1[1..], parts2[1..], j) {
        assert Ties(parts1, parts2, j + 1);
      }
      AllTiesCompareLengths(parts1[1..], parts2[1..]);
    }
  }

  // ---------------------------------------------------------------------------
  // Reflexivity and antisymmetry hold for every string, wildcards included

  lemma {:induction false} ComparePartsReflexive(parts: seq<string>)
    ensures CompareParts(parts, parts) == Equal
    decreases |parts|
  {
    if parts != [] {
      ComparePartsReflexive(parts[1..]);
    }
  }

  lemma CompareReflexive(v: string)
    ensures CompareVersions(v, v) == Equal
  {
    ComparePartsReflexive(Split(v, '.'));
  }

  lemma {:induction false} ComparePartsAntisymmetric(parts1: seq<string>, parts2: seq<string>)
    ensures CompareParts(parts1, parts2) == CompareParts(parts2, parts1).Reverse()
    decreases |parts1|
  {
    if parts1 != [] && parts2 != [] {
      ComparePartsAntisymmetric(parts1[1..], parts2[1..]);
    }
  }

  /** Swapping the arguments reverses the result. */
  lemma CompareAntisymmetric(v1: string, v2: string)
    ensures CompareVersions(v1, v2) == CompareVersions(v2, v1).Reverse()
  {
    ComparePartsAntisymmetric(Split(v1, '.'), Split(v2, '.'));
  }

  // ---------------------------------------------------------------------------
  // Without wildcards the comparison is a total preorder

  /** No component of `v` is the wildcard `x`. */
  predicate NoWildcard(v: string) {
    "x" !in Split(v, '.')
  }

  lemma {:induction false} ComparePartsTransitive(p: seq<string>, q: seq<string>, r: seq<string>)
    requires "x" !in p && "x" !in q && "x" !in r
    ensures CompareParts(p, q) != Greater && CompareParts(q, r) != Greater ==> CompareParts(p, r) != Greater
    ensures CompareParts(p, q) == Less && CompareParts(q, r) != Greater ==> CompareParts(p, r) == Less
    ensures CompareParts(p, q) != Greater && CompareParts(q, r) == Less ==> CompareParts(p, r) == Less
    decreases |p|
  {
    if p != [] && q != [] && r != [] {
      assert p[0] in p && q[0] in q && r[0] in r;
      assert "x" !in p[1..] && "x" !in q[1..] && "x" !in r[1..] by {
        assert forall s: seq<string> :: s != [] ==> multiset(s[1..]) <= multiset(s) by {
          forall s: seq<string> | s != [] ensures multiset(s[1..]) <= multiset(s) {
            assert s == [s[0]] + s[1..];
          }
        }
      }
      ComparePartsTransitive(p[1..], q[1..], r[1..]);
    }
  }

  /** "Not greater" chains: a <= b and b <= c give a <= c when no wildcard is involved. */
  lemma CompareTransitive(a: string, b: string, c: string)
    requires NoWildcard(a) && NoWildcard(b) && NoWildcard(c)
    ensures CompareVersions(a, b) != Greater && CompareVersions(b, c) != Greater ==> CompareVersions(a, c) != Greater
    ensures CompareVersions(a, b) == Less && CompareVersions(b, c) != Greater ==> CompareVersions(a, c) == Less
    ensures CompareVersions(a, b) != Greater && CompareVersions(b, c) == Less ==> CompareVersions(a, c) == Less
  {
    ComparePartsTransitive(Split(a, '.'), Split(b, '.'), Split(c, '.'));
  }

  // ---------------------------------------------------------------------------
  // Worked cases

  /** A single ASCII digit reads as its value. */
  lemma DigitComponent(c: char)
    requires IsAsciiDigit(c)
    ensures ComponentValue([c]) == DigitValue(c)
  {
    assert AllDigits([c]);
    assert [c][..0] == [];
    assert DigitsValue([c]) == DigitValue(c);
    assert ParseU32([c]) == Some(DigitValue(c));
  }

  /** A position holding the wildcard is skipped. */
  lemma WildcardPositionSkipped()
    ensures CompareVersions("5.x", "5.3") == Equal
  {
    assert "5.x" == "5" + ['.'] + "x" && "5.3" == "5" + ['.'] + "3";
    SplitPair("5", "x", '.');
    SplitPair("5", "3", '.');
  }

  /** A component that is not a number reads as 0. */
  lemma UnreadableComponentIsZero()
    ensures CompareVersions("1.a", "1.0") == Equal
  {
    assert "1.a" == "1" + ['.'] + "a" && "1.0" == "1" + ['.'] + "0";
    SplitPair("1", "a", '.');
    SplitPair("1", "0", '.');
    assert ParseU32("a") == None;
    DigitComponent('0');
  }

  /** Components compare as numbers, so leading zeros do not matter. */
  lemma LeadingZerosIgnored()
    ensures CompareVersions("01", "1") == Equal
  {
    SplitNoSeparator("01", '.');
    SplitNoSeparator("1", '.');
    assert "01"[..1] == "0";
    assert DigitsValue("01") == 1;
    assert ParseU32("01") == Some(1);
    DigitComponent('1');
  }

  /** The first differing component decides, whatever follows. */
  lemma FirstDifferenceExample()
    ensures CompareVersions("2.0", "1.9.9") == Greater
  {
    assert "2.0" == "2" + ['.'] + "0" && "1.9.9" == "1" + ['.'] + "9" + ['.'] + "9";
    SplitPair("2", "0", '.');
    SplitTriple("1", "9", "9", '.');
    DigitComponent('2');
    DigitComponent('1');
  }

  /** When every zipped pair ties, the longer version is the greater. */
  lemma LengthTieBreakExample()
    ensures CompareVersions("1.2", "1.2.0") == Less
  {
    assert "1.2" == "1" + ['.'] + "2" && "1.2.0" == "1" + ['.'] + "2" + ['.'] + "0";
    SplitPair("1", "2", '.');
    SplitTriple("1", "2", "0", '.');
  }

  /** With wildcards the ordering is not transitive: 5.3 < 5.4, yet both equal 5.x. */
  lemma WildcardBreaksTransitivity()
    ensures CompareVersions("5.3", "5.x") == Equal
    ensures CompareVersions("5.x", "5.4") == Equal
    ensures CompareVersions("5.3", "5.4") == Less
  {
    assert "5.3" == "5" + ['.'] + "3" && "5.x" == "5" + ['.'] + "x" && "5.4" == "5" + ['.'] + "4";
    SplitPair("5", "3", '.');
    SplitPair("5", "x", '.');
    SplitPair("5", "4", '.');
    SameFirstComponent("5", "3", "x");
    SameFirstComponent("5", "x", "4");
    SameFirstComponent("5", "3", "4");
    SingleComponents("3", "x");
    SingleComponents("x", "4");
    SingleComponents("3", "4");
    DigitComponent('3');
    DigitComponent('4');
  }

  /** Equal first components tie, so the second ones decide. */
  lemma SameFirstComponent(a: string, b: string, d: string)
    ensures CompareParts([a, b], [a, d]) == CompareParts([b], [d])
  {
    assert [a, b][1..] == [b] && [a, d][1..] == [d];
  }

  /** One component on each side: skipped when either is the wildcard, compared as numbers otherwise. */
  lemma SingleComponents(b: string, d: string)
    ensures CompareParts([b], [d]) == if b == "x" || d == "x" then Equal else CompareNat(ComponentValue(b), ComponentValue(d))
  {
    assert [b][1..] == [] && [d][1..] == [];
  }
}
