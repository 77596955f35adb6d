/**
 * `sanitize_version` (src/kpi/utils/sanitize_version.rs): clean a detected
 * version of the quoting and punctuation left by extraction. Single quotes and
 * commas are removed, then every character that is neither numeric nor a dot,
 * then surrounding whitespace.
 */
module Sanitize {
  import opened Text

  /** The characters the filter keeps: `c.is_numeric() || c == '.'`. */
  predicate KeptInVersion(c: char) {
    IsNumeric(c) || c == '.'
  }

  predicate NotQuote(c: char) {
    c != '\''
  }

  predicate NotComma(c: char) {
    c != ','
  }

  function SanitizeVersion(cycle: string): string {
    var noQuotes := Filter(cycle, NotQuote);
    var noCommas := Filter(noQuotes, NotComma);
    var kept := Filter(noCommas, KeptInVersion);
    Trim(kept)
  }

  /** Filtering by `p` and then by a stricter `q` is filtering by `q` alone. */
  lemma {:induction false} FilterTwice(s: string, p: char -> bool, q: char -> bool)
    requires forall c :: q(c) ==> p(c)
    ensures Filter(Filter(s, p), q) == Filter(s, q)
    decreases |s|
  {
    if s != [] {
      FilterTwice(s[1..], p, q);
      var head := if p(s[0]) then [s[0]] else [];
      assert Filter(s, p) == head + Filter(s[1..], p);
      FilterConcat(head, Filter(s[1..], p), q);
    }
  }

  /** Removing quotes and commas first does not change what the version filter keeps. */
  lemma FilterChain(cycle: string)
    ensures Filter(Filter(Filter(cycle, NotQuote), NotComma), KeptInVersion) == Filter(cycle, KeptInVersion)
  {
    FilterTwice(Filter(cycle, NotQuote), NotComma, KeptInVersion);
    FilterTwice(cycle, NotQuote, KeptInVersion);
  }

  /** The whole chain is a single filter: the quote and comma removal and the trim change nothing more. */
  lemma SanitizeIsFilter(cycle: string)
    ensures SanitizeVersion(cycle) == Filter(cycle, KeptInVersion)
  {
    FilterChain(cycle);
    KeptIsTrimmed(Filter(cycle, KeptInVersion));
  }

  /** Numeric characters and dots are not white space, so trimming them changes nothing. */
  lemma KeptIsTrimmed(kept: string)
    requires forall i :: 0 <= i < |kept| ==> KeptInVersion(kept[i])
    ensures Trim(kept) == kept
  {
    if kept != [] {
      NumericIsNotWhitespace(kept[0]);
      NumericIsNotWhitespace(kept[|kept| - 1]);
    }
    TrimNoop(kept);
  }

  /** Only numeric characters and dots remain, and nothing is added. */
  lemma SanitizeKeepsVersionChars(cycle: string)
    ensures forall i :: 0 <= i < |SanitizeVersion(cycle)| ==> KeptInVersion(SanitizeVersion(cycle)[i])
    ensures |SanitizeVersion(cycle)| <= |cycle|
  {
    SanitizeIsFilter(cycle);
  }

  /** The result keeps characters of the input in their order: only removal happens. */
  lemma SanitizeIsSubsequence(cycle: string)
    ensures IsSubsequence(SanitizeVersion(cycle), cycle)
  {
    SanitizeIsFilter(cycle);
    FilterIsSubsequence(cycle, KeptInVersion);
  }

  /** A string made only of numeric characters and dots comes back unchanged. */
  lemma SanitizeKeepsCleanVersion(cycle: string)
    requires forall i :: 0 <= i < |cycle| ==> KeptInVersion(cycle[i])
    ensures SanitizeVersion(cycle) == cycle
  {
    SanitizeIsFilter(cycle);
    FilterKeepsAll(cycle, KeptInVersion);
  }

  /** Sanitizing twice is sanitizing once. */
  lemma SanitizeIdempotent(cycle: string)
    ensures SanitizeVersion(SanitizeVersion(cycle)) == SanitizeVersion(cycle)
  {
    SanitizeKeepsVersionChars(cycle);
    SanitizeKeepsCleanVersion(SanitizeVersion(cycle));
  }

  /** Stray quotes and a trailing comma around a clean version are removed. */
  lemma SanitizeStripsQuoting(v: string)
    requires forall i :: 0 <= i < |v| ==> KeptInVersion(v[i])
    ensures SanitizeVersion("'" + v + "',") == v
  {
    assert Filter("'", KeptInVersion) == [];
    assert Filter("',", KeptInVersion) == [];
    FilterDropsAffixes("'", v, "',", KeptInVersion);
    FilterKeepsAll(v, KeptInVersion);
    SanitizeIsFilter("'" + v + "',");
  }

  /** The quoting left by extraction from a build file: `'1.2.3',` becomes `1.2.3`. */
  lemma SanitizeQuotedExample()
    ensures SanitizeVersion("'1.2.3',") == "1.2.3"
  {
    assert forall i :: 0 <= i < |"1.2.3"| ==> KeptInVersion("1.2.3"[i]);
    SanitizeStripsQuoting("1.2.3");
    assert "'" + "1.2.3" + "'," == "'1.2.3',";
  }

  /** A plain version is left as it is. */
  lemma SanitizePlainExample()
    ensures SanitizeVersion("1.2.3") == "1.2.3"
  {
    SanitizeKeepsCleanVersion("1.2.3");
  }
}
