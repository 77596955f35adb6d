/**
 * The two `is_better_match` variants: is `newVersion` a better pick than
 * `currentBest`? Both walk the zipped dot-split components, skip a position
 * where the NEW version holds `x` (an `x` in the current best is compared as
 * text), and let the first textual difference decide. Components compare as
 * strings, not numbers. They differ only when the zipped components run out:
 *
 *  - `BetterMatch` (src/kpi/is_better_match.rs) answers false;
 *  - `BetterMatchUtils` (src/kpi/utils/is_better_match.rs) prefers the
 *    version with more components.
 */
module BetterMatch {
  import opened Text

  function BetterParts(bestParts: seq<string>, newParts: seq<string>): bool
    decreases |bestParts|
  {
    if bestParts == [] || newParts == [] then false
    else if newParts[0] == "x" then BetterParts(bestParts[1..], newParts[1..])
    else if LexLess(bestParts[0], newParts[0]) then true
    else if LexLess(newParts[0], bestParts[0]) then false
    else BetterParts(bestParts[1..], newParts[1..])
  }

  function IsBetterMatch(currentBest: string, newVersion: string): bool {
    BetterParts(Split(currentBest, '.'), Split(newVersion, '.'))
  }

  /** Position `i` does not decide: the new side is a wildcard, or both sides are the same text. */
  predicate Passes(bestParts: seq<string>, newParts: seq<string>, i: nat)
    requires i < |bestParts| && i < |newParts|
  {
    newParts[i] == "x" || bestParts[i] == newParts[i]
  }

  /** Position `i` is the first that does not pass, and there the new component is the greater text. */
  predicate DecidesForNew(bestParts: seq<string>, newParts: seq<string>, i: nat) {
    && i < |bestParts| && i < |newParts|
    && (forall j :: 0 <= j < i ==> Passes(bestParts, newParts, j))
    && !Passes(bestParts, newParts, i)
    && LexLess(bestParts[i], newParts[i])
  }

  /** Every zipped position passes. */
  predicate AllPass(bestParts: seq<string>, newParts: seq<string>) {
    forall j :: 0 <= j < |bestParts| && j < |newParts| ==> Passes(bestParts, newParts, j)
  }

  /** The loop's answer, read off the first deciding position: true exactly when it favours the new version. */
  lemma {:induction false} BetterIffDecidingPosition(bestParts: seq<string>, newParts: seq<string>)
    ensures BetterParts(bestParts, newParts) <==> exists i: nat :: DecidesForNew(bestParts, newParts, i)
    decreases |bestParts|
  {
    if bestParts != [] && newParts != [] {
      var b, n := bestParts[1..], newParts[1..];
      BetterIffDecidingPosition(b, n);
      LexLessTrichotomy(bestParts[0], newParts[0]);
      if Passes(bestParts, newParts, 0) {
        if exists i: nat :: DecidesForNew(b, n, i) {
          var i: nat :| DecidesForNew(b, n, i);
          forall j | 0 <= j < i + 1 ensures Passes(bestParts, newParts, j) {
            if j > 0 { assert Passes(b, n, j - 1); }
          }
          assert bestParts[i + 1] == b[i] && newParts[i + 1] == n[i];
          assert DecidesForNew(bestParts, newParts, i + 1);
        }
        if exists i: nat :: DecidesForNew(bestParts, newParts, i) {
          var i: nat :| DecidesForNew(bestParts, newParts, i);
          assert i > 0;
          assert bestParts[i] == b[i - 1] && newParts[i] == n[i - 1];
          forall j | 0 <= j < i - 1 ensures Passes(b, n, j) {
            assert Passes(bestParts, newParts, j + 1);
          }
          assert DecidesForNew(b, n, i - 1);
        }
      } else {
        if LexLess(bestParts[0], newParts[0]) {
          assert DecidesForNew(bestParts, newParts, 0);
        } else {
          forall i: nat | DecidesForNew(bestParts, newParts, i) ensures false {
          }
        }
      }
    }
  }

  /** When every zipped position passes, the answer is false whatever the lengths. */
  lemma ExhaustedIsFalse(bestParts: seq<string>, newParts: seq<string>)
    requires AllPass(bestParts, newParts)
    ensures !BetterParts(bestParts, newParts)
  {
    BetterIffDecidingPosition(bestParts, newParts);
  }

  lemma {:induction false} BetterPartsIrreflexive(parts: seq<string>)
    ensures !BetterParts(parts, parts)
    decreases |parts|
  {
    if parts != [] {
      BetterPartsIrreflexive(parts[1..]);
      LexLessIrreflexive(parts[0]);
    }
  }

  /** No version is a better match than itself. */
  lemma Irreflexive(v: string)
    ensures !IsBetterMatch(v, v)
  {
    BetterPartsIrreflexive(Split(v, '.'));
  }

  /** How the versions used in the examples below split. */
  lemma ExampleSplits()
    ensures Split("1.9", '.') == ["1", "9"]
    ensures Split("1.10", '.') == ["1", "10"]
    ensures Split("1.2", '.') == ["1", "2"]
    ensures Split("x.3", '.') == ["x", "3"]
    ensures Split("x.2", '.') == ["x", "2"]
    ensures Split("1.3", '.') == ["1", "3"]
    ensures Split("1.2.0", '.') == ["1", "2", "0"]
  {
    assert "1.9" == "1" + ['.'] + "9" && "1.10" == "1" + ['.'] + "10" && "1.2" == "1" + ['.'] + "2";
    assert "x.3" == "x" + ['.'] + "3" && "x.2" == "x" + ['.'] + "2" && "1.3" == "1" + ['.'] + "3";
    assert "1.2.0" == "1" + ['.'] + "2" + ['.'] + "0";
    SplitPair("1", "9", '.');
    SplitPair("1", "10", '.');
    SplitPair("1", "2", '.');
    SplitPair("x", "3", '.');
    SplitPair("x", "2", '.');
    SplitPair("1", "3", '.');
    SplitTriple("1", "2", "0", '.');
  }

  /** Components compare as text: "10" sorts before "9". */
  lemma TextualComparisonExamples()
    ensures !IsBetterMatch("1.9", "1.10")
    ensures IsBetterMatch("1.10", "1.9")
  {
    ExampleSplits();
  }

  /** Only a wildcard in the new version is skipped; one in the current best is compared as text. */
  lemma WildcardOnlySkippedInNewExamples()
    ensures IsBetterMatch("1.2", "x.3")
    ensures !IsBetterMatch("x.2", "1.3")
  {
    ExampleSplits();
  }

  /** Running out of zipped components answers false, even when the new version is longer. */
  lemma ExhaustedExample()
    ensures !IsBetterMatch("1.2", "1.2.0")
  {
    ExampleSplits();
  }
}

module BetterMatchUtils {
  import opened Text
  import BetterMatch

  /** As in `BetterMatch`, except that running out prefers the version with more components. */
  function BetterParts(bestParts: seq<string>, newParts: seq<string>): bool
    decreases |bestParts|
  {
    if bestParts == [] || newParts == [] then |newParts| > |bestParts|
    else if newParts[0] == "x" then BetterParts(bestParts[1..], newParts[1..])
    else if LexLess(bestParts[0], newParts[0]) then true
    else if LexLess(newParts[0], bestParts[0]) then false
    else BetterParts(bestParts[1..], newParts[1..])
  }

  function IsBetterMatch(currentBest: string, newVersion: string): bool {
    BetterParts(Split(currentBest, '.'), Split(newVersion, '.'))
  }

  /** This variant answers as the other one, or, when every zipped position passes, by length. */
  lemma {:induction false} AddsLengthTieBreak(bestParts: seq<string>, newParts: seq<string>)
    ensures BetterParts(bestParts, newParts)
        <==> BetterMatch.BetterParts(bestParts, newParts)
             || (BetterMatch.AllPass(bestParts, newParts) && |newParts| > |bestParts|)
    decreases |bestParts|
  {
    if bestParts != [] && newParts != [] {
      var b, n := bestParts[1..], newParts[1..];
      AddsLengthTieBreak(b, n);
      LexLessTrichotomy(bestParts[0], newParts[0]);
      if BetterMatch.Passes(bestParts, newParts, 0) {
        if BetterMatch.AllPass(b, n) {
          forall j | 0 <= j < |bestParts| && j < |newParts| ensures BetterMatch.Passes(bestParts, newParts, j) {
            if j > 0 { assert BetterMatch.Passes(b, n, j - 1); }
          }
        }
        if BetterMatch.AllPass(bestParts, newParts) {
          forall j | 0 <= j < |b| && j < |n| ensures BetterMatch.Passes(b, n, j) {
            assert BetterMatch.Passes(bestParts, newParts, j + 1);
          }
        }
      } else {
        assert !BetterMatch.AllPass(bestParts, newParts) by {
          assert !BetterMatch.Passes(bestParts, newParts, 0);
        }
      }
    }
  }

  /** No version is a better match than itself. */
  lemma Irreflexive(v: string)
    ensures !IsBetterMatch(v, v)
  {
    var parts := Split(v, '.');
    AddsLengthTieBreak(parts, parts);
    BetterMatch.BetterPartsIrreflexive(parts);
  }

  /** When the zipped components tie, the longer version wins. */
  lemma LengthTieBreakExamples()
    ensures IsBetterMatch("1.2", "1.2.0")
    ensures !IsBetterMatch("1.2.0", "1.2")
  {
    BetterMatch.ExampleSplits();
  }

  /** Components still compare as text. */
  lemma TextualComparisonExample()
    ensures !IsBetterMatch("1.9", "1.10")
  {
    BetterMatch.ExampleSplits();
  }

  /** Only a wildcard in the new version is skipped. */
  lemma WildcardOnlySkippedInNewExamples()
    ensures IsBetterMatch("1.2", "x.3")
    ensures !IsBetterMatch("x.2", "1.3")
  {
    BetterMatch.ExampleSplits();
  }
}
