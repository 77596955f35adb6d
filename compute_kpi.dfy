/**
 * `compute_kpi` (src/kpi/compute_kpi.rs): classify a detected version against
 * its product's roadmap. The roadmap entries are sorted in place by the
 * suggestion scan; the first sorted entry whose pattern the sanitized cycle
 * matches decides the status under the strict timeframe check, and the
 * latest suggestion tells `UpToDate` from `Compliant`. Without a matching
 * entry the version is `Outdated` when there is something to upgrade to, and
 * there is no result otherwise. Today's date is a parameter.
 */
module Kpi {
  import opened Wrappers
  import opened Text
  import opened VersionCompare
  import opened Roadmap
  import opened EntrySort
  import opened UpgradeSuggestions
  import opened VersionMatch
  import opened Sanitize
  import StrictTimeframe

  datatype KpiStatus = UpToDate | Compliant | Outdated

  /** The explanation attached to a result, one case per message, with the values the message shows. */
  datatype Reason =
    | NoDirectMatch(cycle: string, today: int, latest: string)
    | UpToDateAsOf(cycle: string, today: int, source: string)
    | ValidWithRange(cycle: string, today: int, latest: string, oldest: string)
    | ValidWithLatest(cycle: string, today: int, latest: string)
    | OutdatedWithSuggestion(cycle: string, asOf: int, latest: string)
    | OutdatedNoSuggestion(cycle: string, asOf: int)
    | ValidNoSuggestion(cycle: string, today: int)

  datatype KpiResult = KpiResult(
    product: string,
    cycle: string,
    status: KpiStatus,
    reason: Reason,
    source: Option<string>,
    days: Option<int>)

  /** `entries.iter().find(|e| version_matches(cycle, &e.cycle))`. */
  function FirstMatch(entries: seq<RoadmapEntry>, cycle: string): (r: Option<nat>)
    ensures r.Some? ==> r.value < |entries|
    decreases |entries|
  {
    if entries == [] then None
    else if VersionMatches(cycle, entries[0].cycle) then Some(0)
    else
      var rest := FirstMatch(entries[1..], cycle);
      if rest.Some? then Some(rest.value + 1) else None
  }

  /** The search finds the first entry whose pattern the cycle matches, and nothing when none does. */
  lemma {:induction false} FirstMatchIsFirst(entries: seq<RoadmapEntry>, cycle: string)
    ensures var r := FirstMatch(entries, cycle);
      && (r.Some? ==> VersionMatches(cycle, entries[r.value].cycle))
      && (r.Some? ==> forall j :: 0 <= j < r.value ==> !VersionMatches(cycle, entries[j].cycle))
      && (r.None? <==> forall j :: 0 <= j < |entries| ==> !VersionMatches(cycle, entries[j].cycle))
    decreases |entries|
  {
    if entries != [] && !VersionMatches(cycle, entries[0].cycle) {
      FirstMatchIsFirst(entries[1..], cycle);
      assert forall j :: 1 <= j < |entries| ==> entries[1..][j - 1] == entries[j];
    }
  }

  /** The reason of a matched entry: the match arms in their order. */
  function MatchReason(cycle: string, today: int, valid: bool, latest: Option<Suggestion>,
                       oldest: Option<Suggestion>, eol: Option<int>): Reason
  {
    if valid && latest.Some? && latest.value.cycle == cycle then UpToDateAsOf(cycle, today, latest.value.source)
    else if valid && latest.Some? && oldest.Some? then ValidWithRange(cycle, today, latest.value.cycle, oldest.value.cycle)
    else if valid && latest.Some? then ValidWithLatest(cycle, today, latest.value.cycle)
    else if !valid && latest.Some? then OutdatedWithSuggestion(cycle, eol.GetOr(today), latest.value.cycle)
    else if !valid then OutdatedNoSuggestion(cycle, eol.GetOr(today))
    else ValidNoSuggestion(cycle, today)
  }

  /** The `map_or_else` that builds the result from the suggestions and the matched entry. */
  function Classify(product: string, cycle: string, today: int, oldest: Option<Suggestion>,
                    latest: Option<Suggestion>, matched: Option<RoadmapEntry>): Option<KpiResult>
  {
    if matched.None? then
      if latest.None? then None
      else Some(KpiResult(product, cycle, Outdated, NoDirectMatch(cycle, today, latest.value.cycle),
                          Some(latest.value.source), Some(0)))
    else
      var e := matched.value;
      var valid := StrictTimeframe.IsValidTimeframe(e.releaseDate, e.eol, e.extendedEndDate, today);
      var days := if e.eol.Some? then e.eol.value - today else 0;
      Some(KpiResult(
        product,
        cycle,
        if valid && latest.Some? && latest.value.cycle == cycle then UpToDate
        else if valid then Compliant
        else Outdated,
        MatchReason(cycle, today, valid, latest, oldest, e.eol),
        if latest.Some? then Some(latest.value.source) else None,
        if !valid then Some(days) else None))
  }

  /** The entries after the in-place sort, when there is a roadmap. */
  function SortedEntries(entries: Option<seq<RoadmapEntry>>): Option<seq<RoadmapEntry>> {
    if entries.Some? then Some(SortByCycle(entries.value)) else None
  }

  /** The suggestions, `(None, None)` without a roadmap. */
  function SuggestionsOf(entries: Option<seq<RoadmapEntry>>, today: int): (Option<Suggestion>, Option<Suggestion>) {
    if entries.Some? then Suggestions(entries.value, today) else (None, None)
  }

  /** The matched entry: the first sorted entry whose pattern the cycle matches. */
  function MatchedEntry(entries: Option<seq<RoadmapEntry>>, cycle: string): Option<RoadmapEntry> {
    if entries.None? then None
    else
      var sorted := SortByCycle(entries.value);
      var i := FirstMatch(sorted, cycle);
      if i.Some? then Some(sorted[i.value]) else None
  }

  /** What `compute_kpi` returns for a detected version and the entries of its roadmap, if any. */
  function Evaluate(dependency: DependencyVersion, entries: Option<seq<RoadmapEntry>>, today: int): Option<KpiResult> {
    var cycle := SanitizeVersion(dependency.cycle);
    var (oldest, latest) := SuggestionsOf(entries, today);
    Classify(dependency.product, cycle, today, oldest, latest, MatchedEntry(entries, cycle))
  }

  /** The entries of an analysis's roadmap, as a value. */
  function EntriesOf(analysis: Analysis): Option<seq<RoadmapEntry>>
    reads if analysis.roadmap.Some? then {analysis.roadmap.value.entries} else {}
  {
    if analysis.roadmap.Some? then Some(analysis.roadmap.value.entries[..]) else None
  }

  /**
   * The only state the evaluation changes is the order of the roadmap's
   * entries; every other part of the analysis is a value and stays as it was.
   */
  method ComputeKpi(analysis: Analysis, today: int) returns (r: Option<KpiResult>)
    modifies if analysis.roadmap.Some? then {analysis.roadmap.value.entries} else {}
    ensures EntriesOf(analysis) == SortedEntries(old(EntriesOf(analysis)))
    ensures r == Evaluate(analysis.dependencyVersion, old(EntriesOf(analysis)), today)
  {
    var cycle := SanitizeVersion(analysis.dependencyVersion.cycle);
    ghost var input := EntriesOf(analysis);
    var oldest: Option<Suggestion> := None;
    var latest: Option<Suggestion> := None;
    var matched: Option<RoadmapEntry> := None;
    if analysis.roadmap.Some? {
      var entries := analysis.roadmap.value.entries;
      oldest, latest := FindUpgradeSuggestions(entries, today);
      var i := FirstMatch(entries[..], cycle);
      if i.Some? {
        matched := Some(entries[i.value]);
      }
    }
    assert (oldest, latest) == SuggestionsOf(input, today);
    assert matched == MatchedEntry(input, cycle);
    r := Classify(analysis.dependencyVersion.product, cycle, today, oldest, latest, matched);
  }

  // ---------------------------------------------------------------------------
  // What the evaluation promises

  /** Without a roadmap there is neither a suggestion nor a matching entry, so no result. */
  lemma NoRoadmapNoResult(dependency: DependencyVersion, today: int)
    ensures Evaluate(dependency, None, today) == None
  {
  }

  /** Every result names the product it was asked about and the cycle given, and carries the latest suggestion's source. */
  lemma ResultIdentifiesVersion(product: string, cycle: string, today: int, oldest: Option<Suggestion>,
                                latest: Option<Suggestion>, matched: Option<RoadmapEntry>)
    ensures var r := Classify(product, cycle, today, oldest, latest, matched);
      r.Some? ==>
        && r.value.product == product
        && r.value.cycle == cycle
        && r.value.source == (if latest.Some? then Some(latest.value.source) else None)
  {
  }

  /** No entry's pattern matches the sorted order's entries exactly when none of the input's does. */
  lemma NoMatchInSorted(entries: seq<RoadmapEntry>, cycle: string)
    ensures FirstMatch(SortByCycle(entries), cycle).None? <==> forall e :: e in entries ==> !VersionMatches(cycle, e.cycle)
  {
    SortIsPermutation(entries);
    var sorted := SortByCycle(entries);
    FirstMatchIsFirst(sorted, cycle);
    if FirstMatch(sorted, cycle).None? {
      forall e | e in entries ensures !VersionMatches(cycle, e.cycle) {
        assert e in sorted;
      }
    }
  }

  /**
   * When no entry matches: no result when nothing is released and valid to
   * upgrade to; otherwise `Outdated`, with the latest suggestion's source and
   * zero days.
   */
  lemma NoMatchCase(dependency: DependencyVersion, entries: seq<RoadmapEntry>, today: int)
    requires forall e :: e in entries ==> !VersionMatches(SanitizeVersion(dependency.cycle), e.cycle)
    ensures var r := Evaluate(dependency, Some(entries), today);
      && (r.None? <==> forall e :: e in entries ==> !IsCandidate(e, today))
      && (r.Some? ==> r.value.status == Outdated && r.value.days == Some(0) && r.value.source.Some?)
  {
    NoMatchInSorted(entries, SanitizeVersion(dependency.cycle));
    SuggestionsPresentIffCandidate(entries, today);
  }

  /**
   * When some entry matches, there is a result, and it is decided by a
   * matching entry `m` of the roadmap: `Outdated` exactly when `m` fails the
   * strict timeframe check, and then with the days left until `m`'s
   * end-of-life (zero without one); no days otherwise.
   */
  lemma MatchCase(dependency: DependencyVersion, entries: seq<RoadmapEntry>, today: int)
    requires exists e :: e in entries && VersionMatches(SanitizeVersion(dependency.cycle), e.cycle)
    ensures var r := Evaluate(dependency, Some(entries), today);
      && r.Some?
      && exists m :: m in entries && VersionMatches(SanitizeVersion(dependency.cycle), m.cycle)
           && (r.value.status == Outdated <==> !StrictTimeframe.IsValidTimeframe(m.releaseDate, m.eol, m.extendedEndDate, today))
           && r.value.days == OutdatedDays(m, today)
  {
    var cycle := SanitizeVersion(dependency.cycle);
    NoMatchInSorted(entries, cycle);
    SortIsPermutation(entries);
    var sorted := SortByCycle(entries);
    var i := FirstMatch(sorted, cycle);
    FirstMatchIsFirst(sorted, cycle);
    var m := sorted[i.value];
    assert m in entries;
    var (oldest, latest) := SuggestionsOf(Some(entries), today);
    assert MatchedEntry(Some(entries), cycle) == Some(m);
    ClassifyMatched(dependency.product, cycle, today, oldest, latest, m);
  }

  /** The days a matched entry reports: none while valid, else the days to its end-of-life, or zero without one. */
  function OutdatedDays(m: RoadmapEntry, today: int): Option<int> {
    if StrictTimeframe.IsValidTimeframe(m.releaseDate, m.eol, m.extendedEndDate, today) then None
    else Some(if m.eol.Some? then m.eol.value - today else 0)
  }

  /** With a matched entry the result is present, `Outdated` exactly when the entry is out of its timeframe. */
  lemma ClassifyMatched(product: string, cycle: string, today: int, oldest: Option<Suggestion>,
                        latest: Option<Suggestion>, m: RoadmapEntry)
    ensures var r := Classify(product, cycle, today, oldest, latest, Some(m));
      && r.Some?
      && (r.value.status == Outdated <==> !StrictTimeframe.IsValidTimeframe(m.releaseDate, m.eol, m.extendedEndDate, today))
      && r.value.days == OutdatedDays(m, today)
  {
  }

  /** Without wildcards the deciding entry is the lowest-ordered matching one: no matching entry compares below it. */
  lemma MatchedIsLowest(entries: seq<RoadmapEntry>, cycle: string)
    requires WildcardFree(entries)
    ensures var m := MatchedEntry(Some(entries), cycle);
      m.Some? ==> forall e :: e in entries && VersionMatches(cycle, e.cycle) ==> CompareVersions(m.value.cycle, e.cycle) != Greater
  {
    var sorted := SortByCycle(entries);
    SortIsPermutation(entries);
    assert WildcardFree(sorted) by {
      forall i | 0 <= i < |sorted| ensures NoWildcard(sorted[i].cycle) {
        assert sorted[i] in entries;
      }
    }
    SortByCycleSorted(entries);
    var i := FirstMatch(sorted, cycle);
    FirstMatchIsFirst(sorted, cycle);
    if i.Some? {
      forall e | e in entries && VersionMatches(cycle, e.cycle)
        ensures CompareVersions(sorted[i.value].cycle, e.cycle) != Greater
      {
        assert e in sorted;
        var k :| 0 <= k < |sorted| && sorted[k] == e;
        if k < i.value {
          assert false;
        } else if k == i.value {
          CompareReflexive(e.cycle);
        }
      }
    }
  }

  /** `UpToDate` needs a latest suggestion whose cycle is exactly the cycle being classified. */
  lemma UpToDateIsLatest(product: string, cycle: string, today: int, oldest: Option<Suggestion>,
                         latest: Option<Suggestion>, matched: Option<RoadmapEntry>)
    ensures var r := Classify(product, cycle, today, oldest, latest, matched);
      r.Some? && r.value.status == UpToDate ==> latest.Some? && latest.value.cycle == cycle
  {
  }

  /** A valid matched entry is `UpToDate` exactly when the latest suggestion is the cycle itself, and `Compliant` otherwise. */
  lemma ValidMatchStatus(product: string, cycle: string, today: int, oldest: Option<Suggestion>,
                         latest: Option<Suggestion>, m: RoadmapEntry)
    requires StrictTimeframe.IsValidTimeframe(m.releaseDate, m.eol, m.extendedEndDate, today)
    ensures var r := Classify(product, cycle, today, oldest, latest, Some(m));
      && r.Some?
      && (r.value.status == UpToDate <==> latest.Some? && latest.value.cycle == cycle)
      && (r.value.status == Compliant <==> !(latest.Some? && latest.value.cycle == cycle))
  {
  }

  /**
   * The status of `compute_kpi`'s result, case by case: `UpToDate` for a valid
   * matched entry whose cycle is the latest suggestion, `Compliant` for any
   * other valid matched entry, and `Outdated` for a matched entry out of its
   * timeframe or for no match when there is a latest suggestion.
   */
  lemma EvaluateStatus(dependency: DependencyVersion, entries: Option<seq<RoadmapEntry>>, today: int)
    ensures var cycle := SanitizeVersion(dependency.cycle);
      var latest := SuggestionsOf(entries, today).1;
      var m := MatchedEntry(entries, cycle);
      var r := Evaluate(dependency, entries, today);
      var valid := m.Some? && StrictTimeframe.IsValidTimeframe(m.value.releaseDate, m.value.eol, m.value.extendedEndDate, today);
      && (r.Some? <==> m.Some? || latest.Some?)
      && (r.Some? && r.value.status == UpToDate <==> valid && latest.Some? && latest.value.cycle == cycle)
      && (r.Some? && r.value.status == Compliant <==> valid && !(latest.Some? && latest.value.cycle == cycle))
      && (r.Some? && r.value.status == Outdated <==> (m.Some? && !valid) || (m.None? && latest.Some?))
  {
  }

  /** A sanitized cycle has no `x`, so a wildcard latest suggestion such as `3.0.x` never makes a version `UpToDate`. */
  lemma WildcardLatestNeverUpToDate(dependency: DependencyVersion, entries: Option<seq<RoadmapEntry>>, today: int)
    requires SuggestionsOf(entries, today).1.Some? && 'x' in SuggestionsOf(entries, today).1.value.cycle
    ensures var r := Evaluate(dependency, entries, today);
      r.Some? ==> r.value.status != UpToDate
  {
    var cycle := SanitizeVersion(dependency.cycle);
    assert !KeptInVersion('x');
    assert 'x' !in cycle;
    var (oldest, latest) := SuggestionsOf(entries, today);
    UpToDateIsLatest(dependency.product, cycle, today, oldest, latest, MatchedEntry(entries, cycle));
  }

  /** Days are reported exactly for outdated versions. */
  lemma DaysOnlyWhenOutdated(product: string, cycle: string, today: int, oldest: Option<Suggestion>,
                             latest: Option<Suggestion>, matched: Option<RoadmapEntry>)
    ensures var r := Classify(product, cycle, today, oldest, latest, matched);
      r.Some? ==> (r.value.days.Some? <==> r.value.status == Outdated)
  {
  }

  /** The reason always tells the same story as the status. */
  lemma ReasonAgreesWithStatus(product: string, cycle: string, today: int, oldest: Option<Suggestion>,
                               latest: Option<Suggestion>, matched: Option<RoadmapEntry>)
    ensures var r := Classify(product, cycle, today, oldest, latest, matched);
      r.Some? ==>
        && (r.value.status == UpToDate <==> r.value.reason.UpToDateAsOf?)
        && (r.value.status == Outdated <==>
              r.value.reason.NoDirectMatch? || r.value.reason.OutdatedWithSuggestion? || r.value.reason.OutdatedNoSuggestion?)
  {
  }
}
