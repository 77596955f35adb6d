/**
 * `find_upgrade_suggestion` (src/kpi/find_upgrade_suggestion.rs), the older
 * single-suggestion scan: sort the entries in place, then visit them from the
 * first to the last and keep the greatest entry that is either not released
 * yet or valid under the rescuing timeframe check. A kept entry is replaced
 * only by one strictly above it.
 */
module UpgradeSuggestion {
  import opened Wrappers
  import opened Text
  import opened VersionCompare
  import opened LowerVersion
  import opened Roadmap
  import opened EntrySort
  import ExtendedTimeframe

  predicate NotYetReleased(e: RoadmapEntry, today: int) {
    e.releaseDate.Some? && today < e.releaseDate.value
  }

  predicate ExtendedValid(e: RoadmapEntry, today: int) {
    ExtendedTimeframe.IsValidTimeframe(e.releaseDate, e.eol, e.extendedEndDate, today)
  }

  /** The entries the scan may keep: not released yet, or valid with the extended date's rescue. */
  predicate IsCandidate(e: RoadmapEntry, today: int) {
    NotYetReleased(e, today) || ExtendedValid(e, today)
  }

  /** Keep `e` when nothing is kept yet or the kept entry is strictly lower. */
  function Offer(best: Option<RoadmapEntry>, e: RoadmapEntry): Option<RoadmapEntry> {
    if best.None? || IsLowerVersion(best.value.cycle, e.cycle) then Some(e) else best
  }

  /** One iteration of the loop body: the release test, then the timeframe test. */
  function Visit(best: Option<RoadmapEntry>, e: RoadmapEntry, today: int): Option<RoadmapEntry> {
    var afterRelease := if NotYetReleased(e, today) then Offer(best, e) else best;
    if ExtendedValid(e, today) then Offer(afterRelease, e) else afterRelease
  }

  /** The whole loop, from the first entry to the last. */
  function ScanForward(s: seq<RoadmapEntry>, today: int): Option<RoadmapEntry>
    decreases |s|
  {
    if s == [] then None else Visit(ScanForward(s[..|s| - 1], today), s[|s| - 1], today)
  }

  /** What the function returns for the given entries. */
  function Suggestion(entries: seq<RoadmapEntry>, today: int): Option<string> {
    var best := ScanForward(SortByCycle(entries), today);
    if best.Some? then Some(best.value.cycle) else None
  }

  method FindUpgradeSuggestion(entries: array<RoadmapEntry>, today: int) returns (suggestion: Option<string>)
    modifies entries
    ensures entries[..] == SortByCycle(old(entries[..]))
    ensures suggestion == Suggestion(old(entries[..]), today)
  {
    SortEntries(entries);
    var best: Option<RoadmapEntry> := None;
    var i := 0;
    while i < entries.Length
      invariant 0 <= i <= entries.Length
      invariant best == ScanForward(entries[..i], today)
    {
      var e := entries[i];
      if NotYetReleased(e, today) {
        if best.None? || IsLowerVersion(best.value.cycle, e.cycle) {
          best := Some(e);
        }
      }
      if ExtendedValid(e, today) {
        if best.None? || IsLowerVersion(best.value.cycle, e.cycle) {
          best := Some(e);
        }
      }
      assert entries[..i + 1][..i] == entries[..i];
      i := i + 1;
    }
    assert entries[..entries.Length] == entries[..];
    suggestion := if best.Some? then Some(best.value.cycle) else None;
  }

  // ---------------------------------------------------------------------------
  // What the scan keeps

  /** An entry not released yet fails the timeframe check, so each entry is offered at most once: exactly the candidates are. */
  lemma VisitOffersCandidate(best: Option<RoadmapEntry>, e: RoadmapEntry, today: int)
    ensures !(NotYetReleased(e, today) && ExtendedValid(e, today))
    ensures Visit(best, e, today) == if IsCandidate(e, today) then Offer(best, e) else best
  {
  }

  /** The scan keeps something exactly when some entry is a candidate, and what it keeps is a candidate entry. */
  lemma {:induction false} KeptIffCandidate(s: seq<RoadmapEntry>, today: int)
    ensures ScanForward(s, today).Some? <==> exists i :: 0 <= i < |s| && IsCandidate(s[i], today)
    ensures ScanForward(s, today).Some? ==> ScanForward(s, today).value in s && IsCandidate(ScanForward(s, today).value, today)
    decreases |s|
  {
    if s != [] {
      var init := s[..|s| - 1];
      KeptIffCandidate(init, today);
      if exists i :: 0 <= i < |init| && IsCandidate(init[i], today) {
        var i :| 0 <= i < |init| && IsCandidate(init[i], today);
        assert IsCandidate(s[i], today);
      }
      if exists i :: 0 <= i < |s| && IsCandidate(s[i], today) {
        var i :| 0 <= i < |s| && IsCandidate(s[i], today);
        if i < |s| - 1 { assert IsCandidate(init[i], today); }
      }
      if ScanForward(init, today).Some? {
        assert ScanForward(init, today).value in s;
      }
    }
  }

  /** Without wildcards no candidate compares above the kept entry. */
  lemma {:induction false} KeptIsGreatest(s: seq<RoadmapEntry>, today: int)
    requires WildcardFree(s)
    ensures var best := ScanForward(s, today);
      best.Some? ==> forall i :: 0 <= i < |s| && IsCandidate(s[i], today) ==> CompareVersions(s[i].cycle, best.value.cycle) != Greater
    decreases |s|
  {
    if s != [] {
      var init, e := s[..|s| - 1], s[|s| - 1];
      assert WildcardFree(init) by {
        forall i | 0 <= i < |init| ensures NoWildcard(init[i].cycle) { assert init[i] == s[i]; }
      }
      KeptIsGreatest(init, today);
      KeptIffCandidate(init, today);
      var prev := ScanForward(init, today);
      var best := ScanForward(s, today);
      VisitOffersCandidate(prev, e, today);
      if best.Some? {
        forall i | 0 <= i < |s| && IsCandidate(s[i], today)
          ensures CompareVersions(s[i].cycle, best.value.cycle) != Greater
        {
          if i == |s| - 1 {
            if best.value == e { CompareReflexive(e.cycle); } else { NotLowerIsAtMost(prev.value.cycle, e.cycle); }
          } else {
            assert init[i] == s[i];
            if best.value == e && prev.Some? && best != prev {
              assert prev.value in init;
              var m :| 0 <= m < |init| && init[m] == prev.value;
              CompareTransitive(s[i].cycle, prev.value.cycle, e.cycle);
            }
          }
        }
      }
    }
  }

  /**
   * Among the candidates that compare equal to the kept entry, it is the
   * first: every candidate before it compares strictly below it.
   */
  lemma {:induction false} KeptIsFirstGreatest(s: seq<RoadmapEntry>, today: int)
    requires WildcardFree(s)
    ensures var best := ScanForward(s, today);
      best.Some? ==>
        exists k :: 0 <= k < |s| && s[k] == best.value
          && forall j :: 0 <= j < k && IsCandidate(s[j], today) ==> IsLowerVersion(s[j].cycle, s[k].cycle)
    decreases |s|
  {
    if s != [] {
      var init, e := s[..|s| - 1], s[|s| - 1];
      assert WildcardFree(init) by {
        forall i | 0 <= i < |init| ensures NoWildcard(init[i].cycle) { assert init[i] == s[i]; }
      }
      KeptIsFirstGreatest(init, today);
      KeptIsGreatest(init, today);
      KeptIffCandidate(init, today);
      var prev := ScanForward(init, today);
      var best := ScanForward(s, today);
      VisitOffersCandidate(prev, e, today);
      if best.Some? {
        if IsCandidate(e, today) && (prev.None? || IsLowerVersion(prev.value.cycle, e.cycle)) {
          forall j | 0 <= j < |s| - 1 && IsCandidate(s[j], today)
            ensures IsLowerVersion(s[j].cycle, e.cycle)
          {
            assert init[j] == s[j];
            assert prev.value in init;
            var m :| 0 <= m < |init| && init[m] == prev.value;
            CompareTransitive(s[j].cycle, prev.value.cycle, e.cycle);
          }
          assert s[|s| - 1] == best.value;
        } else {
          var k :| 0 <= k < |init| && init[k] == prev.value
             && forall j :: 0 <= j < k && IsCandidate(init[j], today) ==> IsLowerVersion(init[j].cycle, init[k].cycle);
          forall j | 0 <= j < k && IsCandidate(s[j], today)
            ensures IsLowerVersion(s[j].cycle, s[k].cycle)
          {
            assert init[j] == s[j];
          }
          assert s[k] == best.value;
        }
      }
    }
  }

  // ---------------------------------------------------------------------------
  // The same facts about the returned cycle, stated over the unsorted input

  /** No suggestion exactly when no entry is a candidate; otherwise the cycle of a candidate entry. */
  lemma SuggestionIffCandidate(entries: seq<RoadmapEntry>, today: int)
    ensures Suggestion(entries, today).None? <==> forall e :: e in entries ==> !IsCandidate(e, today)
    ensures Suggestion(entries, today).Some? ==>
      exists e :: e in entries && IsCandidate(e, today) && e.cycle == Suggestion(entries, today).value
  {
    var sorted := SortByCycle(entries);
    KeptIffCandidate(sorted, today);
    SortIsPermutation(entries);
    if exists e :: e in entries && IsCandidate(e, today) {
      var e :| e in entries && IsCandidate(e, today);
      assert e in sorted;
    }
  }

  /** Without wildcards no candidate compares above the suggestion. */
  lemma SuggestionIsGreatest(entries: seq<RoadmapEntry>, today: int)
    requires WildcardFree(entries)
    ensures Suggestion(entries, today).Some? ==>
      forall e :: e in entries && IsCandidate(e, today) ==> CompareVersions(e.cycle, Suggestion(entries, today).value) != Greater
  {
    var sorted := SortByCycle(entries);
    SortIsPermutation(entries);
    assert WildcardFree(sorted) by {
      forall i | 0 <= i < |sorted| ensures NoWildcard(sorted[i].cycle) {
        assert sorted[i] in entries;
      }
    }
    KeptIsGreatest(sorted, today);
    forall e | e in entries && IsCandidate(e, today) ensures e in sorted { }
  }

  /** An entry released after today can be the suggestion. */
  lemma UnreleasedSuggestedExample()
    ensures Suggestion([RoadmapEntry("21", Some(500), None, None, None)], 100) == Some("21")
  {
    var e := RoadmapEntry("21", Some(500), None, None, None);
    assert SortByCycle([e]) == [e] by { assert [e][..0] == []; }
    assert [e][..0] == [];
  }

  /** An entry past its end-of-life but within its extended date is still suggested. */
  lemma RescuedEntryExample()
    ensures Suggestion([RoadmapEntry("11", Some(0), Some(100), Some(200), None)], 150) == Some("11")
  {
    var e := RoadmapEntry("11", Some(0), Some(100), Some(200), None);
    assert SortByCycle([e]) == [e] by { assert [e][..0] == []; }
    assert [e][..0] == [];
  }
}
