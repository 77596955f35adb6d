/**
 * `find_upgrade_suggestions` (src/kpi/find_upgrade_suggestions.rs): sort the
 * roadmap entries in place, then visit them from the last to the first and
 * keep the latest and the oldest entry that is released and inside its
 * strict timeframe. A kept entry is replaced only by one strictly above
 * (latest) or strictly below (oldest) it.
 */
module UpgradeSuggestions {
  import opened Wrappers
  import opened Text
  import opened VersionCompare
  import opened LowerVersion
  import opened Roadmap
  import opened EntrySort
  import StrictTimeframe

  /** A suggested cycle and the roadmap source it comes from. */
  datatype Suggestion = Suggestion(cycle: string, source: string)

  /** The entries kept so far by the scan. */
  datatype Picks = Picks(oldest: Option<RoadmapEntry>, latest: Option<RoadmapEntry>)

  predicate NotYetReleased(e: RoadmapEntry, today: int) {
    e.releaseDate.Some? && today < e.releaseDate.value
  }

  /** The entries the scan may keep: released and inside the strict timeframe. */
  predicate IsCandidate(e: RoadmapEntry, today: int) {
    !NotYetReleased(e, today) && StrictTimeframe.IsValidTimeframe(e.releaseDate, e.eol, e.extendedEndDate, today)
  }

  /** One iteration of the loop body. */
  function Visit(p: Picks, e: RoadmapEntry, today: int): Picks {
    if NotYetReleased(e, today) then p
    else if StrictTimeframe.IsValidTimeframe(e.releaseDate, e.eol, e.extendedEndDate, today) then
      Picks(
        if p.oldest.None? || IsLowerVersion(e.cycle, p.oldest.value.cycle) then Some(e) else p.oldest,
        if p.latest.None? || IsLowerVersion(p.latest.value.cycle, e.cycle) then Some(e) else p.latest)
    else p
  }

  /** The whole loop: the last entry is visited first and the first entry last. */
  function ScanFromEnd(s: seq<RoadmapEntry>, today: int): Picks
    decreases |s|
  {
    if s == [] then Picks(None, None) else Visit(ScanFromEnd(s[1..], today), s[0], today)
  }

  /** A kept entry as a suggestion; a missing source name reads `?`. */
  function ToSuggestion(e: Option<RoadmapEntry>): (r: Option<Suggestion>)
    ensures r.Some? <==> e.Some?
    ensures r.Some? ==> r.value.cycle == e.value.cycle
    ensures r.Some? ==> r.value.source == (if e.value.sourceName.Some? then e.value.sourceName.value else "?")
  {
    if e.None? then None else Some(Suggestion(e.value.cycle, e.value.sourceName.GetOr("?")))
  }

  /** What the function returns for the given entries, as `(oldest, latest)`. */
  function Suggestions(entries: seq<RoadmapEntry>, today: int): (Option<Suggestion>, Option<Suggestion>) {
    var p := ScanFromEnd(SortByCycle(entries), today);
    (ToSuggestion(p.oldest), ToSuggestion(p.latest))
  }

  method FindUpgradeSuggestions(entries: array<RoadmapEntry>, today: int)
      returns (oldest: Option<Suggestion>, latest: Option<Suggestion>)
    modifies entries
    ensures entries[..] == SortByCycle(old(entries[..]))
    ensures (oldest, latest) == Suggestions(old(entries[..]), today)
  {
    SortEntries(entries);
    var picks := Picks(None, None);
    var i := entries.Length;
    while i > 0
      invariant 0 <= i <= entries.Length
      invariant picks == ScanFromEnd(entries[i..], today)
    {
      i := i - 1;
      assert entries[i..][1..] == entries[i + 1..];
      picks := Visit(picks, entries[i], today);
    }
    assert entries[0..] == entries[..];
    oldest := ToSuggestion(picks.oldest);
    latest := ToSuggestion(picks.latest);
  }

  // ---------------------------------------------------------------------------
  // What the scan keeps

  /** Both picks are present exactly when some entry is a candidate. */
  lemma {:induction false} PicksPresentIffCandidate(s: seq<RoadmapEntry>, today: int)
    ensures ScanFromEnd(s, today).oldest.Some? <==> exists i :: 0 <= i < |s| && IsCandidate(s[i], today)
    ensures ScanFromEnd(s, today).latest.Some? <==> exists i :: 0 <= i < |s| && IsCandidate(s[i], today)
    decreases |s|
  {
    if s != [] {
      PicksPresentIffCandidate(s[1..], today);
      if exists i :: 0 <= i < |s[1..]| && IsCandidate(s[1..][i], today) {
        var i :| 0 <= i < |s[1..]| && IsCandidate(s[1..][i], today);
        assert IsCandidate(s[i + 1], today);
      }
      if exists i :: 0 <= i < |s| && IsCandidate(s[i], today) {
        var i :| 0 <= i < |s| && IsCandidate(s[i], today);
        if i > 0 { assert IsCandidate(s[1..][i - 1], today); }
      }
    }
  }

  /** Each pick is one of the entries, and a candidate. */
  lemma {:induction false} PicksAreCandidates(s: seq<RoadmapEntry>, today: int)
    ensures var p := ScanFromEnd(s, today);
      p.oldest.Some? ==> p.oldest.value in s && IsCandidate(p.oldest.value, today)
    ensures var p := ScanFromEnd(s, today);
      p.latest.Some? ==> p.latest.value in s && IsCandidate(p.latest.value, today)
    decreases |s|
  {
    if s != [] {
      PicksAreCandidates(s[1..], today);
    }
  }

  /**
   * Without wildcards the latest pick is a greatest candidate, and among the
   * candidates that compare equal to it, the one nearest the end: every
   * candidate after it compares strictly below it.
   */
  lemma {:induction false} LatestIsLastGreatest(s: seq<RoadmapEntry>, today: int)
    requires WildcardFree(s)
    ensures var p := ScanFromEnd(s, today);
      p.latest.Some? ==>
        && (forall i :: 0 <= i < |s| && IsCandidate(s[i], today) ==> CompareVersions(s[i].cycle, p.latest.value.cycle) != Greater)
        && exists k :: 0 <= k < |s| && s[k] == p.latest.value
             && forall j :: k < j < |s| && IsCandidate(s[j], today) ==> IsLowerVersion(s[j].cycle, s[k].cycle)
    decreases |s|
  {
    if s != [] {
      var rest := s[1..];
      assert WildcardFree(rest) by {
        forall i | 0 <= i < |rest| ensures NoWildcard(rest[i].cycle) { assert rest[i] == s[i + 1]; }
      }
      LatestIsLastGreatest(rest, today);
      PicksAreCandidates(rest, today);
      PicksPresentIffCandidate(rest, today);
      var prev := ScanFromEnd(rest, today).latest;
      var p := ScanFromEnd(s, today);
      if p.latest.Some? {
        var e := s[0];
        if IsCandidate(e, today) && (prev.None? || IsLowerVersion(prev.value.cycle, e.cycle)) {
          // The first entry replaced the pick: everything after it is at most the old pick, hence below it.
          forall j | 0 < j < |s| && IsCandidate(s[j], today)
            ensures IsLowerVersion(s[j].cycle, e.cycle)
          {
            assert rest[j - 1] == s[j];
            assert prev.value in rest;
            var m :| 0 <= m < |rest| && rest[m] == prev.value;
            CompareTransitive(s[j].cycle, prev.value.cycle, e.cycle);
          }
          forall i | 0 <= i < |s| && IsCandidate(s[i], today)
            ensures CompareVersions(s[i].cycle, e.cycle) != Greater
          {
            if i == 0 { CompareReflexive(e.cycle); }
          }
          assert s[0] == p.latest.value;
        } else {
          // The old pick stays; the first entry, when a candidate, is at most the pick.
          assert p.latest == prev;
          var k :| 0 <= k < |rest| && rest[k] == prev.value
             && forall j :: k < j < |rest| && IsCandidate(rest[j], today) ==> IsLowerVersion(rest[j].cycle, rest[k].cycle);
          forall j | k + 1 < j < |s| && IsCandidate(s[j], today)
            ensures IsLowerVersion(s[j].cycle, s[k + 1].cycle)
          {
            assert rest[j - 1] == s[j];
          }
          assert s[k + 1] == p.latest.value;
          forall i | 0 <= i < |s| && IsCandidate(s[i], today)
            ensures CompareVersions(s[i].cycle, prev.value.cycle) != Greater
          {
            if i == 0 {
              NotLowerIsAtMost(prev.value.cycle, e.cycle);
            } else {
              assert rest[i - 1] == s[i];
            }
          }
        }
      }
    }
  }

  /**
   * Without wildcards the oldest pick is a least candidate, and among the
   * candidates that compare equal to it, the one nearest the end: every
   * candidate after it compares strictly above it.
   */
  lemma {:induction false} OldestIsLastLeast(s: seq<RoadmapEntry>, today: int)
    requires WildcardFree(s)
    ensures var p := ScanFromEnd(s, today);
      p.oldest.Some? ==>
        && (forall i :: 0 <= i < |s| && IsCandidate(s[i], today) ==> CompareVersions(s[i].cycle, p.oldest.value.cycle) != Less)
        && exists k :: 0 <= k < |s| && s[k] == p.oldest.value
             && forall j :: k < j < |s| && IsCandidate(s[j], today) ==> IsLowerVersion(s[k].cycle, s[j].cycle)
    decreases |s|
  {
    if s != [] {
      var rest := s[1..];
      assert WildcardFree(rest) by {
        forall i | 0 <= i < |rest| ensures NoWildcard(rest[i].cycle) { assert rest[i] == s[i + 1]; }
      }
      OldestIsLastLeast(rest, today);
      PicksAreCandidates(rest, today);
      PicksPresentIffCandidate(rest, today);
      var prev := ScanFromEnd(rest, today).oldest;
      var p := ScanFromEnd(s, today);
      if p.oldest.Some? {
        var e := s[0];
        if IsCandidate(e, today) && (prev.None? || IsLowerVersion(e.cycle, prev.value.cycle)) {
          forall j | 0 < j < |s| && IsCandidate(s[j], today)
            ensures IsLowerVersion(e.cycle, s[j].cycle)
          {
            assert rest[j - 1] == s[j];
            assert prev.value in rest;
            var m :| 0 <= m < |rest| && rest[m] == prev.value;
            CompareAntisymmetric(s[j].cycle, prev.value.cycle);
            CompareTransitive(e.cycle, prev.value.cycle, s[j].cycle);
          }
          forall i | 0 <= i < |s| && IsCandidate(s[i], today)
            ensures CompareVersions(s[i].cycle, e.cycle) != Less
          {
            if i == 0 { CompareReflexive(e.cycle); } else { CompareAntisymmetric(e.cycle, s[i].cycle); }
          }
          assert s[0] == p.oldest.value;
        } else {
          assert p.oldest == prev;
          var k :| 0 <= k < |rest| && rest[k] == prev.value
             && forall j :: k < j < |rest| && IsCandidate(rest[j], today) ==> IsLowerVersion(rest[k].cycle, rest[j].cycle);
          forall j | k + 1 < j < |s| && IsCandidate(s[j], today)
            ensures IsLowerVersion(s[k + 1].cycle, s[j].cycle)
          {
            assert rest[j - 1] == s[j];
          }
          assert s[k + 1] == p.oldest.value;
          forall i | 0 <= i < |s| && IsCandidate(s[i], today)
            ensures CompareVersions(s[i].cycle, prev.value.cycle) != Less
          {
            if i == 0 {
              CompareAntisymmetric(e.cycle, prev.value.cycle);
            } else {
              assert rest[i - 1] == s[i];
            }
          }
        }
      }
    }
  }

  // ---------------------------------------------------------------------------
  // The same facts about the returned pair, stated over the unsorted input

  /** A candidate of the input is a candidate of the sorted entries, and back. */
  lemma CandidatesOfSorted(entries: seq<RoadmapEntry>, today: int)
    ensures (exists i :: 0 <= i < |SortByCycle(entries)| && IsCandidate(SortByCycle(entries)[i], today))
        <==> exists e :: e in entries && IsCandidate(e, today)
  {
    SortIsPermutation(entries);
  }

  /** Both suggestions are present exactly when some entry is released and inside its strict timeframe. */
  lemma SuggestionsPresentIffCandidate(entries: seq<RoadmapEntry>, today: int)
    ensures Suggestions(entries, today).0.Some? <==> exists e :: e in entries && IsCandidate(e, today)
    ensures Suggestions(entries, today).1.Some? <==> exists e :: e in entries && IsCandidate(e, today)
  {
    var sorted := SortByCycle(entries);
    var p := ScanFromEnd(sorted, today);
    assert Suggestions(entries, today) == (ToSuggestion(p.oldest), ToSuggestion(p.latest));
    PicksPresentIffCandidate(sorted, today);
    CandidatesOfSorted(entries, today);
    var inSorted := exists i :: 0 <= i < |sorted| && IsCandidate(sorted[i], today);
    assert p.oldest.Some? <==> inSorted;
    assert p.latest.Some? <==> inSorted;
    assert inSorted <==> exists e :: e in entries && IsCandidate(e, today);
  }

  /** Each suggestion names the cycle and source of a candidate entry. */
  lemma SuggestionsComeFromCandidates(entries: seq<RoadmapEntry>, today: int)
    ensures var (oldest, latest) := Suggestions(entries, today);
      && (oldest.Some? ==> exists e :: e in entries && IsCandidate(e, today) && oldest == ToSuggestion(Some(e)))
      && (latest.Some? ==> exists e :: e in entries && IsCandidate(e, today) && latest == ToSuggestion(Some(e)))
  {
    var sorted := SortByCycle(entries);
    PicksAreCandidates(sorted, today);
    SortIsPermutation(entries);
  }

  /** Without wildcards no candidate compares above the latest suggestion or below the oldest. */
  lemma SuggestionsBound(entries: seq<RoadmapEntry>, today: int)
    requires WildcardFree(entries)
    ensures var (oldest, latest) := Suggestions(entries, today);
      && (latest.Some? ==> forall e :: e in entries && IsCandidate(e, today) ==> CompareVersions(e.cycle, latest.value.cycle) != Greater)
      && (oldest.Some? ==> forall e :: e in entries && IsCandidate(e, today) ==> CompareVersions(e.cycle, oldest.value.cycle) != Less)
  {
    var sorted := SortByCycle(entries);
    SortIsPermutation(entries);
    assert WildcardFree(sorted) by {
      forall i | 0 <= i < |sorted| ensures NoWildcard(sorted[i].cycle) {
        assert sorted[i] in entries;
      }
    }
    LatestIsLastGreatest(sorted, today);
    OldestIsLastLeast(sorted, today);
    forall e | e in entries && IsCandidate(e, today) ensures e in sorted { }
  }

  /** A roadmap entry with no source name is suggested with source `?`. */
  lemma MissingSourceExample(today: int)
    ensures Suggestions([RoadmapEntry("17", None, None, None, None)], today)
        == (Some(Suggestion("17", "?")), Some(Suggestion("17", "?")))
  {
    var e := RoadmapEntry("17", None, None, None, None);
    assert SortByCycle([e]) == [e] by { assert [e][..0] == []; }
    assert [e][1..] == [];
  }
}
