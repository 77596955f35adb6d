# xdebt version-lifecycle compliance, in Dafny

xdebt scans repositories for the versions of the products they depend on
(a JDK, Angular, Spring, ...) and classifies each detected version against the
product's roadmap. A roadmap is a list of entries. Each entry has a cycle
pattern such as `5.3` or `5.x`, an optional release date, an optional
end-of-life date, an optional extended end date and an optional source name.
The result of the classification is `UpToDate`, `Compliant` or `Outdated`,
with an explanation, the source of the latest suggestion and, for outdated
versions, the days left until end-of-life.

This project models that classification and the small routines around it:

- `compare_versions`: a component-wise ordering in which `x` is a wildcard.
  `is_lower_version` is built on it, the two older `is_better_match` variants
  compare components as text, and `parse_version` reads a major/minor/patch
  triple.
- `version_matches`: a cycle against a roadmap pattern.
- `sanitize_version`: the cleaning of a detected version.
- The two `is_valid_timeframe` checks: the strict one, and the older one in
  which an extended end date rescues an entry past its end-of-life.
- `find_upgrade_suggestions` and the older `find_upgrade_suggestion`. Both sort
  the roadmap entries in place and then scan them for the greatest (and least)
  valid entry.
- `compute_kpi`: the evaluator that combines all of the above.
- `parse_groovy_properties`: a line parser for `key: 'value'` build files.
- `remove_null_values`: the in-place pruning of null members from a JSON tree.
- The npm dependency lookup: `get_dependency_version` and the loop over
  products and their equivalent package names.

Dates are day numbers (`int`) and "today" is a parameter everywhere. The
pieces of Rust's standard library that the code depends on are modelled
precisely in module `Text`:

- `split` always yields at least one piece.
- `u32::from_str` accepts one leading `+` and fails on overflow.
- `trim` strips the Unicode White_Space characters.
- `lines` drops one `\r` before each `\n` and does not yield a final empty line.

The in-place sorts of the roadmap entries are methods over an `array` of
entries. The vector's `sort_by` is specified by a stable insertion sort,
`EntrySort.SortByCycle`. The scans are `while` loops proved against functions
that fold over the sorted entries. `compute_kpi` mutates a roadmap held in an
array and is proved against the pure evaluator `Kpi.Evaluate`.

Where the code and its documentation disagree, the model follows the code:

- `version_matches` compares only up to the shorter of the two component
  lists, so `5.3` matches the pattern `5.3.31` just as `5.3.31` matches `5.3`.
- A matched entry reports days only when it is outdated. With no matching
  entry and a latest suggestion, the days are 0.
- `compute_kpi` and `find_upgrade_suggestions` use the strict timeframe check
  (`src/kpi/utils/is_valid_timeframe.rs`). Only `find_upgrade_suggestion` uses
  the rescuing one.
- A missing roadmap gives no result at all rather than an error.
- The record types are those the code uses:
  - `RoadmapEntry` has the fields cycle, release date, end-of-life, extended end
    date and source name;
  - `KPIResult` has the fields product, cycle, status, reason, source and days.

  The declarations in `src/models.rs` have other fields.

## Model

| member | source | states |
|---|---|---|
| VersionCompare.CompareNat | src/kpi/compare_versions.rs:15-18 | `cmp` on numbers: Less, Equal and Greater exactly when `<`, `==` and `>` hold |
| VersionCompare.ComponentValue | src/kpi/compare_versions.rs:12-13 | a component reads as a `u32` value (0 when unparsable), never above 4294967295 |
| VersionCompare.CompareParts | src/kpi/compare_versions.rs:7-21 | the loop over the zipped components, skipping `x` positions and returning at the first unequal value, then the length comparison; its meaning is stated by FirstDifferenceDecides and AllTiesCompareLengths |
| VersionCompare.CompareVersions | src/kpi/compare_versions.rs:3-22 | both versions split at `.` and compared component by component; its ordering properties are the lemmas below |
| Text.ParseU32 | src/kpi/compare_versions.rs:12-13 | a successful `u32` parse is within range and starts with a digit or `+` |
| Text.AccumulateDigitsValue | src/kpi/compare_versions.rs:12-13 | the digit-by-digit parse succeeds exactly on a non-empty all-digit string whose decimal value fits in 32 bits, and gives that value |
| Text.ParseU32Value | src/kpi/parse_version.rs:3-13 | `parse::<u32>()` is Some(value) exactly for an optional `+` followed by digits whose value fits in 32 bits |
| Text.ParseDecimalString | src/kpi/parse_version.rs:3-13 | the decimal spelling of a 32-bit number parses back to that number |
| VersionCompare.FirstDifferenceDecides | src/kpi/compare_versions.rs:7-18 | when every earlier zipped position ties (wildcard or equal values), the first deciding position's values give the result |
| VersionCompare.AllTiesCompareLengths | src/kpi/compare_versions.rs:21 | when every zipped position ties, the result compares the numbers of components |
| VersionCompare.CompareReflexive | src/kpi/compare_versions.rs:7-21 | every version compares Equal to itself |
| VersionCompare.CompareAntisymmetric | src/kpi/compare_versions.rs:3-22 | swapping the arguments reverses the ordering |
| VersionCompare.CompareTransitive | src/kpi/compare_versions.rs:3-22 | without `x` components, "not greater" and "less" chain through a middle version |
| VersionCompare.WildcardPositionSkipped | src/kpi/compare_versions.rs:8-10 | `5.x` compares Equal to `5.3` |
| VersionCompare.UnreadableComponentIsZero | src/kpi/compare_versions.rs:12-13 | `1.a` compares Equal to `1.0` |
| VersionCompare.LeadingZerosIgnored | src/kpi/compare_versions.rs:12-13 | `01` compares Equal to `1` |
| VersionCompare.FirstDifferenceExample | src/kpi/compare_versions.rs:15-18 | `2.0` compares Greater than `1.9.9` |
| VersionCompare.LengthTieBreakExample | src/kpi/compare_versions.rs:21 | `1.2` compares Less than `1.2.0` |
| VersionCompare.WildcardBreaksTransitivity | src/kpi/compare_versions.rs:8-10 | `5.3` and `5.4` both equal `5.x`, yet `5.3` is Less than `5.4` |
| LowerVersion.IsLowerVersion | src/kpi/is_lower_version.rs:4-6 | `compare_versions(v1, v2) == Less`; its properties are the lemmas below |
| LowerVersion.NotLowerIsAtMost | src/kpi/is_lower_version.rs:4-6 | not lower is the same as the other side not comparing Greater |
| LowerVersion.LowerIrreflexive | src/kpi/is_lower_version.rs:5 | no version is lower than itself |
| LowerVersion.LowerAsymmetric | src/kpi/is_lower_version.rs:5 | two versions are never each lower than the other |
| LowerVersion.LowerTransitive | src/kpi/is_lower_version.rs:4-6 | without `x` components, lower is transitive |
| LowerVersion.ShorterTieIsLower | src/kpi/is_lower_version.rs:5 | `1.2` is lower than `1.2.0` |
| LowerVersion.WildcardIsNeitherLower | src/kpi/is_lower_version.rs:5 | neither of `5.x` and `5.3` is lower than the other |
| VersionMatch.TrimWildcardSuffix | src/kpi/version_matches.rs:5 | `trim_end_matches(".x")` removes a whole run of `.x` from the end: the result is a prefix, no longer ends in `.x`, and what was cut is `.x` repeated |
| VersionMatch.VersionMatches | src/kpi/version_matches.rs:3-13 | a `.x` pattern matches the cycles that start with its base; any other pattern matches when the zipped components agree; stated by the lemmas below |
| VersionMatch.MatchesReflexive | src/kpi/version_matches.rs:3-13 | every pattern matches itself |
| VersionMatch.ExactMatchSymmetric | src/kpi/version_matches.rs:9-12 | without a wildcard suffix on either side, matching is symmetric, because `zip` stops at the shorter list |
| VersionMatch.EmptyCycleNeverMatchesExact | src/kpi/version_matches.rs:9-12 | the empty cycle never matches an exact pattern whose first component is not empty |
| VersionMatch.WildcardExamples | src/kpi/version_matches.rs:4-7 | `5.3.21` and `50.1` match `5.x`, `5.3.1` matches `5.x.x`, and `6.0.0` does not match `5.x` |
| VersionMatch.ExactExamples | src/kpi/version_matches.rs:9-12 | `5.3.31` matches `5.3` and `5.3` matches `5.3.31`, but `5.4.1` does not match `5.3` |
| Sanitize.SanitizeVersion | src/kpi/utils/sanitize_version.rs:2-11 | removes quotes and commas, keeps numeric characters and dots, trims; SanitizeIsFilter gives its meaning |
| Sanitize.SanitizeIsFilter | src/kpi/utils/sanitize_version.rs:2-11 | the whole chain equals a single filter keeping numeric characters and dots |
| Sanitize.SanitizeKeepsVersionChars | src/kpi/utils/sanitize_version.rs:6-8 | only numeric characters and dots remain, and the output is never longer than the input |
| Sanitize.SanitizeIsSubsequence | src/kpi/utils/sanitize_version.rs:3-8 | the output is a subsequence of the input |
| Sanitize.SanitizeKeepsCleanVersion | src/kpi/utils/sanitize_version.rs:7 | a string made only of numeric characters and dots comes back unchanged |
| Sanitize.SanitizeIdempotent | src/kpi/utils/sanitize_version.rs:3-10 | sanitizing twice is sanitizing once |
| Sanitize.SanitizeStripsQuoting | src/kpi/utils/sanitize_version.rs:4-5 | a clean version wrapped as `'v',` comes back as `v` |
| Sanitize.SanitizeQuotedExample | src/kpi/utils/sanitize_version.rs:4-5 | `'1.2.3',` becomes `1.2.3` |
| Sanitize.SanitizePlainExample | src/kpi/utils/sanitize_version.rs:7 | `1.2.3` is unchanged |
| StrictTimeframe.IsValidTimeframe | src/kpi/utils/is_valid_timeframe.rs:4-32 | valid exactly when every present bound holds: release on or before today, today on or before end-of-life and on or before the extended date |
| StrictTimeframe.NoRescuePastEol | src/kpi/utils/is_valid_timeframe.rs:18-22 | once end-of-life has passed, no extended date makes the entry valid |
| StrictTimeframe.PassedExtensionInvalidates | src/kpi/utils/is_valid_timeframe.rs:25-29 | an extended date before today invalidates the entry even while end-of-life is ahead |
| StrictTimeframe.NoDatesAlwaysValid | src/kpi/utils/is_valid_timeframe.rs:31 | with no dates the entry is valid |
| ExtendedTimeframe.IsValidTimeframe | src/kpi/is_valid_timeframe.rs:4-22 | valid exactly when released by today and either not past end-of-life or within a present extended date |
| ExtendedTimeframe.NotYetReleased | src/kpi/is_valid_timeframe.rs:5-9 | before the release date the entry is invalid |
| ExtendedTimeframe.EolDayIsValid | src/kpi/is_valid_timeframe.rs:11-12 | the end-of-life day itself is valid |
| ExtendedTimeframe.ExtensionIgnoredBeforeEol | src/kpi/is_valid_timeframe.rs:11-21 | up to end-of-life the extended date is not consulted, even when it lies before today |
| ExtendedTimeframe.PastEolNeedsExtension | src/kpi/is_valid_timeframe.rs:13-17 | past end-of-life, valid exactly when an extended date is present and today is not past it |
| ExtendedTimeframe.NoBoundsAlwaysValid | src/kpi/is_valid_timeframe.rs:21 | with no release date and no end-of-life every day is valid |
| TimeframeComparison.StrictImpliesExtended | src/kpi/utils/is_valid_timeframe.rs:18-22 | whatever the strict check accepts, the rescuing check accepts too |
| TimeframeComparison.WhereTheyDisagree | src/kpi/is_valid_timeframe.rs:11-19 | the checks disagree exactly on released entries with an extended date that are either rescued past end-of-life or past the extension before end-of-life |
| TimeframeComparison.RescueExample | src/kpi/is_valid_timeframe.rs:13-14 | release 0, end-of-life 100, extension 200: day 150 passes the rescuing check and fails the strict one |
| EntrySort.SortEntries | src/kpi/find_upgrade_suggestions.rs:12 | the in-place `sort_by(compare_versions)` leaves the array holding the sorted sequence of its old contents |
| EntrySort.SortByCycle | src/kpi/find_upgrade_suggestions.rs:12 | the order `sort_by(compare_versions)` produces, as a stable insertion sort; it keeps the length, and SortIsPermutation and SortByCycleSorted state the rest |
| EntrySort.SortIsPermutation | src/kpi/find_upgrade_suggestions.rs:12 | the sort is a permutation: same multiset, same members |
| EntrySort.SortByCycleSorted | src/kpi/find_upgrade_suggestions.rs:12 | without `x` components the sorted entries are in ascending `compare_versions` order |
| EntrySort.InsertSorted | src/kpi/find_upgrade_suggestions.rs:12 | inserting into a sorted wildcard-free sequence keeps it sorted |
| UpgradeSuggestions.FindUpgradeSuggestions | src/kpi/find_upgrade_suggestions.rs:9-52 | sorts the entries in place, and the reverse loop returns the pair of suggestions the scan of the sorted entries defines |
| UpgradeSuggestions.ScanFromEnd | src/kpi/find_upgrade_suggestions.rs:18-45 | the reverse loop over the sorted entries: skip unreleased entries, and for valid ones replace the latest when strictly lower and the oldest when strictly higher; stated by the lemmas below |
| UpgradeSuggestions.Suggestions | src/kpi/find_upgrade_suggestions.rs:9-52 | the scan of the sorted entries, with each pick turned into cycle and source; stated by SuggestionsPresentIffCandidate, SuggestionsComeFromCandidates and SuggestionsBound |
| UpgradeSuggestions.ToSuggestion | src/kpi/find_upgrade_suggestions.rs:48-51 | a kept entry becomes its cycle and its source name, or `?` without one |
| UpgradeSuggestions.PicksPresentIffCandidate | src/kpi/find_upgrade_suggestions.rs:18-45 | each pick is present exactly when some entry is released and valid |
| UpgradeSuggestions.PicksAreCandidates | src/kpi/find_upgrade_suggestions.rs:21-29 | each pick is one of the entries, released and valid under the strict check |
| UpgradeSuggestions.LatestIsLastGreatest | src/kpi/find_upgrade_suggestions.rs:32-35 | without `x` components the latest pick is a greatest candidate, and every candidate after it in the sorted order is strictly lower |
| UpgradeSuggestions.OldestIsLastLeast | src/kpi/find_upgrade_suggestions.rs:38-41 | without `x` components the oldest pick is a least candidate, and every candidate after it in the sorted order is strictly higher |
| UpgradeSuggestions.SuggestionsPresentIffCandidate | src/kpi/find_upgrade_suggestions.rs:18-51 | the oldest and the latest suggestion are each present exactly when some entry is released and valid |
| UpgradeSuggestions.SuggestionsComeFromCandidates | src/kpi/find_upgrade_suggestions.rs:21-51 | each suggestion is the cycle and source of a released, valid entry |
| UpgradeSuggestions.SuggestionsBound | src/kpi/find_upgrade_suggestions.rs:32-41 | without `x` components no candidate compares above the latest or below the oldest suggestion |
| UpgradeSuggestions.MissingSourceExample | src/kpi/find_upgrade_suggestions.rs:49-50 | an entry without a source name is suggested with source `?` |
| UpgradeSuggestion.FindUpgradeSuggestion | src/kpi/find_upgrade_suggestion.rs:8-30 | sorts the entries in place, and the forward loop returns the cycle the scan of the sorted entries keeps |
| UpgradeSuggestion.ScanForward | src/kpi/find_upgrade_suggestion.rs:13-27 | the forward loop: an unreleased entry, and then a valid one under the rescuing check, replaces the kept entry when nothing is kept or it is strictly lower; stated by the lemmas below |
| UpgradeSuggestion.VisitOffersCandidate | src/kpi/find_upgrade_suggestion.rs:14-26 | an unreleased entry never passes the timeframe check, so one iteration offers the entry exactly when it is unreleased or valid under the rescuing check |
| UpgradeSuggestion.KeptIffCandidate | src/kpi/find_upgrade_suggestion.rs:11-27 | the scan keeps something exactly when some entry is a candidate, and what it keeps is a candidate entry |
| UpgradeSuggestion.KeptIsGreatest | src/kpi/find_upgrade_suggestion.rs:16-24 | without `x` components no candidate compares above the kept entry |
| UpgradeSuggestion.KeptIsFirstGreatest | src/kpi/find_upgrade_suggestion.rs:16-24 | the kept entry is replaced only by a strictly higher one, so every candidate before it is strictly lower |
| UpgradeSuggestion.SuggestionIffCandidate | src/kpi/find_upgrade_suggestion.rs:11-29 | no suggestion exactly when no entry is a candidate; otherwise the cycle of a candidate entry |
| UpgradeSuggestion.SuggestionIsGreatest | src/kpi/find_upgrade_suggestion.rs:16-24 | without `x` components no candidate compares above the suggestion |
| UpgradeSuggestion.UnreleasedSuggestedExample | src/kpi/find_upgrade_suggestion.rs:14-19 | an entry released after today is suggested |
| UpgradeSuggestion.RescuedEntryExample | src/kpi/find_upgrade_suggestion.rs:22-26 | an entry past end-of-life but within its extended date is suggested |
| Kpi.FirstMatch | src/kpi/compute_kpi.rs:20-21 | the search returns an index of the entries, if any |
| Kpi.FirstMatchIsFirst | src/kpi/compute_kpi.rs:20-21 | `find` returns the first entry whose pattern the cycle matches, and nothing exactly when none matches |
| Kpi.Classify | src/kpi/compute_kpi.rs:22-111 | the `map_or_else`: the no-match arm and the match arm with status, reason, source and days; stated by NoMatchCase, ClassifyMatched, ValidMatchStatus and the lemmas below |
| Kpi.Evaluate | src/kpi/compute_kpi.rs:11-113 | sanitize, take the suggestions of the sorted entries and the first matching sorted entry, classify; stated by EvaluateStatus, NoMatchCase and MatchCase |
| Kpi.ComputeKpi | src/kpi/compute_kpi.rs:11-113 | sorts the roadmap entries in place and returns what `Evaluate` gives for the old entries |
| Kpi.NoRoadmapNoResult | src/kpi/compute_kpi.rs:16-25 | without a roadmap there is no result |
| Kpi.NoMatchInSorted | src/kpi/compute_kpi.rs:16-21 | no sorted entry matches exactly when no entry of the input matches |
| Kpi.NoMatchCase | src/kpi/compute_kpi.rs:22-43 | with no match, no result when nothing is released and valid; otherwise `Outdated` with the latest suggestion's source and 0 days |
| Kpi.MatchCase | src/kpi/compute_kpi.rs:44-111 | with a match there is a result, decided by a matching entry: `Outdated` exactly when it fails the strict check, with the days to its end-of-life (0 without one) |
| Kpi.ClassifyMatched | src/kpi/compute_kpi.rs:46-109 | for the matched entry: `Outdated` exactly when the strict check fails, and days exactly then |
| Kpi.MatchedIsLowest | src/kpi/compute_kpi.rs:16-21 | without `x` components the deciding entry is a lowest-ordered matching one |
| Kpi.UpToDateIsLatest | src/kpi/compute_kpi.rs:100-101 | `UpToDate` needs a latest suggestion whose cycle is exactly the sanitized cycle |
| Kpi.ValidMatchStatus | src/kpi/compute_kpi.rs:100-104 | a matched entry that passes the strict check is `UpToDate` exactly when the latest suggestion's cycle is the sanitized cycle, and `Compliant` otherwise |
| Kpi.EvaluateStatus | src/kpi/compute_kpi.rs:20-111 | a result exists exactly when an entry matches or there is a latest suggestion; `UpToDate` exactly for a valid match whose cycle is the latest, `Compliant` exactly for any other valid match, `Outdated` exactly for a match out of its timeframe or no match with a latest suggestion |
| Kpi.WildcardLatestNeverUpToDate | src/kpi/compute_kpi.rs:100-101 | a latest suggestion containing `x` (such as `3.0.x`) never makes a version `UpToDate` |
| Kpi.DaysOnlyWhenOutdated | src/kpi/compute_kpi.rs:109 | days are reported exactly for outdated versions |
| Kpi.ResultIdentifiesVersion | src/kpi/compute_kpi.rs:35-39 | every result carries the product asked about, the sanitized cycle and the latest suggestion's source |
| Kpi.ReasonAgreesWithStatus | src/kpi/compute_kpi.rs:55-95 | the explanation is the up-to-date one exactly for `UpToDate`, and an outdated one exactly for `Outdated` |
| BetterMatch.BetterParts | src/kpi/is_better_match.rs:6-18 | the loop: skip an `x` in the new version, answer by the first textual difference, false when the zip runs out; stated by BetterIffDecidingPosition and ExhaustedIsFalse |
| BetterMatch.BetterIffDecidingPosition | src/kpi/is_better_match.rs:6-16 | true exactly when, at the first position that is not skipped and not textually equal, the new component is the greater text |
| BetterMatch.ExhaustedIsFalse | src/kpi/is_better_match.rs:18 | when every zipped position passes, the answer is false whatever the lengths |
| BetterMatch.Irreflexive | src/kpi/is_better_match.rs:6-18 | no version is a better match than itself |
| BetterMatch.TextualComparisonExamples | src/kpi/is_better_match.rs:10-15 | components compare as text: `1.10` is not better than `1.9`, and `1.9` is better than `1.10` |
| BetterMatch.WildcardOnlySkippedInNewExamples | src/kpi/is_better_match.rs:7-9 | an `x` is skipped in the new version but compared as text in the current best |
| BetterMatch.ExhaustedExample | src/kpi/is_better_match.rs:18 | `1.2.0` is not better than `1.2` |
| BetterMatchUtils.BetterParts | src/kpi/utils/is_better_match.rs:7-20 | the same loop, ending in "more components wins"; AddsLengthTieBreak relates it to the other variant |
| BetterMatchUtils.AddsLengthTieBreak | src/kpi/utils/is_better_match.rs:3-21 | this variant answers as the other, or, when every zipped position passes, by more components |
| BetterMatchUtils.Irreflexive | src/kpi/utils/is_better_match.rs:7-20 | no version is a better match than itself |
| BetterMatchUtils.LengthTieBreakExamples | src/kpi/utils/is_better_match.rs:20 | `1.2.0` is better than `1.2`, and `1.2` is not better than `1.2.0` |
| BetterMatchUtils.TextualComparisonExample | src/kpi/utils/is_better_match.rs:11-16 | `1.10` is not better than `1.9` |
| BetterMatchUtils.WildcardOnlySkippedInNewExamples | src/kpi/utils/is_better_match.rs:8-10 | only an `x` in the new version is skipped |
| VersionTriple.ParseVersion | src/kpi/parse_version.rs:1-15 | every component fits in a `u32`, and minor and patch are present only when there are that many components |
| VersionTriple.ParseFormatRoundTrip | src/kpi/parse_version.rs:1-15 | the dotted spelling of any triple in range parses back to it |
| VersionTriple.ExtraComponentsIgnored | src/kpi/parse_version.rs:2-14 | whatever follows the third component does not change the result |
| VersionTriple.DependsOnFirstThree | src/kpi/parse_version.rs:2-14 | the result depends only on the first three components |
| VersionTriple.FullVersionExample | src/kpi/parse_version.rs:2-14 | `1.2.3` gives (1, 2, 3) |
| VersionTriple.MajorOnlyExample | src/kpi/parse_version.rs:4-13 | `7` gives (7, none, none) |
| VersionTriple.WildcardMinorExample | src/kpi/parse_version.rs:4-8 | `1.x` gives (1, none, none) |
| VersionTriple.UnparsableMajorExample | src/kpi/parse_version.rs:3 | an unparsable major becomes 0: `v1.2` gives (0, 2, none) |
| GroovyProperties.StripCr | src/plugins/jenkins/parse_groovy_properties.rs:9 | one trailing carriage return is removed, or the line is unchanged |
| GroovyProperties.LinesOfContent | src/plugins/jenkins/parse_groovy_properties.rs:9 | `lines()` yields the line-feed pieces, each ended one without a trailing carriage return, the last only when not empty; no line holds a line feed; empty content has no lines |
| GroovyProperties.ParseLine | src/plugins/jenkins/parse_groovy_properties.rs:11-26 | the loop body: skip blank and `//` lines, split at the first colon, trim the key, trim, unquote and trim the value; stated by SkippedLines and ParsedPairShape |
| GroovyProperties.ParseGroovyPropertiesLoop | src/plugins/jenkins/parse_groovy_properties.rs:5-35 | the loop builds the map that inserting each parsed line's pair in turn defines |
| GroovyProperties.SkippedLines | src/plugins/jenkins/parse_groovy_properties.rs:11-17 | blank lines, `//` comments and lines without a colon set nothing |
| GroovyProperties.ParsedPairShape | src/plugins/jenkins/parse_groovy_properties.rs:17-26 | a parsed key holds no colon, and key and value have no surrounding whitespace |
| GroovyProperties.LastWriteWins | src/plugins/jenkins/parse_groovy_properties.rs:28 | a key is in the map exactly when some pair sets it, with the value of the last such pair |
| GroovyProperties.PropertyIsLastLine | src/plugins/jenkins/parse_groovy_properties.rs:5-35 | for the file: a key is present exactly when some line sets it, and its value is that of the last such line |
| GroovyProperties.EmptyContentEmptyMap | src/plugins/jenkins/parse_groovy_properties.rs:6-9 | empty content gives the empty map |
| GroovyProperties.QuotedValueExample | src/plugins/jenkins/parse_groovy_properties.rs:18-26 | `jdk : '17'` sets `jdk` to `17` |
| GroovyProperties.StripQuotesExample | src/plugins/jenkins/parse_groovy_properties.rs:24 | `trim_matches('\'')` turns `'17'` into `17` |
| GroovyProperties.TrimIdempotent | src/plugins/jenkins/parse_groovy_properties.rs:11-25 | trimming twice is trimming once |
| NullRemoval.Pruned | src/utils/remove_null_values.rs:3-19 | the tree the call leaves behind: null members retained out, then each remaining member pruned; stated by PrunedIsClean, ObjectKeepsNonNullKeys, ArrayKeepsOrder and PruneIdempotent |
| NullRemoval.RemoveNullValues | src/utils/remove_null_values.rs:3-19 | retains the non-null members and recurses into them, giving `Pruned(v)` |
| NullRemoval.RetainFieldsLoop | src/utils/remove_null_values.rs:6 | the object's `retain` keeps exactly the fields whose values are not null |
| NullRemoval.RetainItemsLoop | src/utils/remove_null_values.rs:12 | the array's `retain` keeps the non-null elements in order |
| NullRemoval.RetainItems | src/utils/remove_null_values.rs:12 | every retained element is an element of the array and not null |
| NullRemoval.PrunedIsClean | src/utils/remove_null_values.rs:5-16 | afterwards no object field and no array element anywhere in the tree is null |
| NullRemoval.PrunedKeepsKind | src/utils/remove_null_values.rs:17 | the kind of value is kept, and null and scalars are left unchanged |
| NullRemoval.CleanIsUnchanged | src/utils/remove_null_values.rs:3-19 | a tree with no null member is left unchanged |
| NullRemoval.PruneIdempotent | src/utils/remove_null_values.rs:3-19 | a second call changes nothing |
| NullRemoval.ObjectKeepsNonNullKeys | src/utils/remove_null_values.rs:6-9 | an object keeps exactly the keys whose values were not null, each value pruned |
| NullRemoval.ArrayKeepsOrder | src/utils/remove_null_values.rs:12-15 | the surviving elements are the pruned non-null elements at increasing original positions |
| NullRemoval.AllNullArrayLeavesEmpty | src/utils/remove_null_values.rs:11-15 | an array of nulls becomes `[]` and stays in its parent |
| NullRemoval.AllNullObjectLeavesEmpty | src/utils/remove_null_values.rs:5-9 | an object of null fields becomes `{}` and stays in its parent |
| NullRemoval.NestedExample | src/utils/remove_null_values.rs:3-19 | `{"a": null, "b": [1, null]}` becomes `{"b": [1]}` |
| NpmVersions.GetDependencyVersion | src/plugins/npm/analyze_package_json_content.rs:12-21 | `get` in `dependencies`, else in `devDependencies`, then `as_str`, then the leading `~`/`^` run stripped; stated by the lemmas below |
| NpmVersions.VersionIsStrippedString | src/plugins/npm/analyze_package_json_content.rs:17-20 | a version is found exactly when the first section having the key holds a string there; it is that string minus its leading run of `~` and `^` |
| NpmVersions.DevDependenciesOnlyAsFallback | src/plugins/npm/analyze_package_json_content.rs:17-18 | `devDependencies` is not consulted when `dependencies` has the key |
| NpmVersions.NonStringGivesNothing | src/plugins/npm/analyze_package_json_content.rs:17-19 | a non-string value in `dependencies` gives nothing, without falling back |
| NpmVersions.CaretStripped | src/plugins/npm/analyze_package_json_content.rs:20 | `^15.2.0` becomes `15.2.0` |
| NpmVersions.Keywords | src/plugins/npm/analyze_package_json_content.rs:64-70 | the product first, then its equivalences in their listed order |
| NpmVersions.FindVersion | src/plugins/npm/analyze_package_json_content.rs:79-105 | the inner loop stops at the first keyword yielding a version |
| NpmVersions.FirstKeywordWins | src/plugins/npm/analyze_package_json_content.rs:79-105 | a version is found exactly when some keyword yields one, and it is the version of the first such keyword |
| NpmVersions.ResolveVersions | src/plugins/npm/analyze_package_json_content.rs:62-106 | the nested loops fill the map that the fold over the products defines |
| NpmVersions.VersionsByProduct | src/plugins/npm/analyze_package_json_content.rs:62-106 | a name is in `versions` exactly when it is a product one of whose keywords yields a version, stored under the product name |
| NpmVersions.NoPackageJsonNoVersions | src/plugins/npm/analyze_package_json_content.rs:31-39 | without a package.json `versions` is empty |
| NpmVersions.NoSectionsNoVersions | src/plugins/npm/analyze_package_json_content.rs:53-55 | a package.json without either section finds nothing |
| NpmVersions.EquivalentNameExample | src/plugins/npm/analyze_package_json_content.rs:92-98 | `@angular/core: ^15.2.0` with `angular` equivalent to it records `angular: 15.2.0` |

## Left out

- Network access, file and database I/O, subprocesses, the configuration
  loader, logging and `async`. `check_package_json_exists`,
  `run_json_get_query` and the sled store are not part of this model. The npm
  lookup takes the parsed package.json, or none, as a parameter, and the errors
  of those calls are not modelled. The configuration is reduced to its
  equivalences map.
- The clock: `Utc::now()` is replaced by a `today` parameter, and dates are day
  numbers, so calendar formatting is not modelled.
- Kpi.ReasonAgreesWithStatus: the explanation is a datatype with one case per
  message and the values it shows, not the formatted text.
- EntrySort.SortEntries: the vector's `sort_by` is modelled by the stable
  insertion sort `SortByCycle`, and the array ends in exactly that order, with
  or without wildcards. For up to 20 entries the standard library's stable sort
  is itself an insertion sort, so the orders agree. For more entries it runs a
  merge sort. Without `x` components the two give the same order, because
  `compare_versions` is then a total preorder and both sorts are stable. A
  roadmap of more than 20 entries with `x` components can end in a different
  order, and then the matched entry and the suggestions can differ from the
  model's.
- EntrySort.SortEntries: the array receives the sorted sequence in one step,
  so the steps of the library's algorithm are not modelled.
- NullRemoval.RemoveNullValues: the pruning returns a new value instead of
  mutating through `&mut`. Aliasing and the order in which `values_mut` visits
  the fields are not modelled.
- NpmVersions.ResolveVersions: the inner loop's `insert` then `break` is
  written as a search that returns the version, followed by the insert.
- Text.IsNumeric: `char::is_numeric` is modelled for ASCII digits and the
  numeric characters of Latin-1 (superscripts and vulgar fractions). Numeric
  characters of other scripts are not part of this model.
- `src/kpi/compute_kpi.rs:7`, `src/kpi/find_upgrade_suggestions.rs:7` and
  `src/kpi/is_lower_version.rs:2` import `compare_versions` and
  `version_matches` from `src/kpi/utils/`. Those two files are not part of this
  model. The model takes them to be `src/kpi/compare_versions.rs` and
  `src/kpi/version_matches.rs`.
- JSON numbers are integers, since the code only tests values for null or
  string.
- The record declarations in `src/models.rs` disagree with the code. The
  model follows the fields the code uses.
- `extract_version_from_groovy`, the POM analyses and the other extractors run
  on regular expressions and an XML DOM that are not part of this model.
