/**
 * `is_lower_version` (src/kpi/is_lower_version.rs): strictly below in the
 * ordering of `compare_versions`.
 */
module LowerVersion {
  import opened Text
  import opened VersionCompare

  predicate IsLowerVersion(v1: string, v2: string) {
    CompareVersions(v1, v2) == Less
  }

  /** No version is lower than itself. */
  lemma LowerIrreflexive(v: string)
    ensures !IsLowerVersion(v, v)
  {
    CompareReflexive(v);
  }

  /** Two versions are never each lower than the other. */
  lemma LowerAsymmetric(v1: string, v2: string)
    ensures !(IsLowerVersion(v1, v2) && IsLowerVersion(v2, v1))
  {
    CompareAntisymmetric(v1, v2);
  }

  /** Not being lower is the same as the other side not comparing greater. */
  lemma NotLowerIsAtMost(v1: string, v2: string)
    ensures !IsLowerVersion(v1, v2) <==> CompareVersions(v2, v1) != Greater
  {
    CompareAntisymmetric(v1, v2);
  }

  /** Without wildcards, "lower" is transitive. */
  lemma LowerTransitive(a: string, b: string, c: string)
    requires NoWildcard(a) && NoWildcard(b) && NoWildcard(c)
    ensures IsLowerVersion(a, b) && IsLowerVersion(b, c) ==> IsLowerVersion(a, c)
  {
    CompareTransitive(a, b, c);
  }

  /** The length tie-break makes "1.2" lower than "1.2.0". */
  lemma ShorterTieIsLower()
    ensures IsLowerVersion("1.2", "1.2.0")
  {
    LengthTieBreakExample();
  }

  /** A wildcard makes "5.x" and "5.3" equal, so neither is lower. */
  lemma WildcardIsNeitherLower()
    ensures !IsLowerVersion("5.x", "5.3") && !IsLowerVersion("5.3", "5.x")
  {
    WildcardPositionSkipped();
    CompareAntisymmetric("5.x", "5.3");
  }
}
