/**
 * The records the lifecycle evaluation works on, with the fields the code in
 * src/kpi/ reads from them. Dates are day numbers.
 */
module Roadmap {
  import opened Wrappers

  /** One lifecycle line of a product roadmap: a cycle pattern and its dates. */
  datatype RoadmapEntry = RoadmapEntry(
    cycle: string,
    releaseDate: Option<int>,
    eol: Option<int>,
    extendedEndDate: Option<int>,
    sourceName: Option<string>)

  /** A product's roadmap. Its entries live in a buffer that the evaluation sorts in place. */
  datatype ProductRoadmap = ProductRoadmap(
    dependency: string,
    domain: Option<string>,
    chapter: Option<string>,
    entries: array<RoadmapEntry>)

  /** The version detected for a product in a repository. */
  datatype DependencyVersion = DependencyVersion(product: string, cycle: string)

  /** A detected version together with the roadmap of its product, when one is known. */
  datatype Analysis = Analysis(
    repositoryName: string,
    dependencyVersion: DependencyVersion,
    roadmap: Option<ProductRoadmap>)

  /** `today` is on or after a present lower bound. */
  predicate NotBefore(bound: Option<int>, today: int) {
    bound.None? || bound.value <= today
  }

  /** `today` is on or before a present upper bound. */
  predicate NotAfter(bound: Option<int>, today: int) {
    bound.None? || today <= bound.value
  }
}
