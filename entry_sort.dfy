/**
 * `entries.sort_by(|a, b| compare_versions(&a.cycle, &b.cycle))`, the in-place
 * sort both suggestion scans start with (src/kpi/find_upgrade_suggestions.rs:12,
 * src/kpi/find_upgrade_suggestion.rs:9). The library sort is stable; it is
 * modelled by a stable insertion sort. The result is always a permutation of
 * the input. It is ordered by `compare_versions` only when no cycle holds an
 * `x` component, because with wildcards the comparison is not transitive and
 * no order exists to sort by.
 */
module EntrySort {
  import opened Text
  import opened VersionCompare
  import opened Roadmap

  /** `x` may stand before `y`. */
  predicate InOrder(x: RoadmapEntry, y: RoadmapEntry) {
    CompareVersions(x.cycle, y.cycle) != Greater
  }

  predicate Sorted(s: seq<RoadmapEntry>) {
    forall i, j :: 0 <= i < j < |s| ==> InOrder(s[i], s[j])
  }

  /** No cycle in `s` has an `x` component. */
  predicate WildcardFree(s: seq<RoadmapEntry>) {
    forall i :: 0 <= i < |s| ==> NoWildcard(s[i].cycle)
  }

  /** Put `x` after the last element it does not compare below: equal cycles keep their order. */
  function Insert(t: seq<RoadmapEntry>, x: RoadmapEntry): (r: seq<RoadmapEntry>)
    ensures |r| == |t| + 1
    decreases |t|
  {
    if t == [] then [x]
    else if CompareVersions(x.cycle, t[|t| - 1].cycle) == Less then
      Insert(t[..|t| - 1], x) + [t[|t| - 1]]
    else t + [x]
  }

  /** Insertion sort: each element in turn is inserted into the sorted prefix before it. */
  function SortByCycle(s: seq<RoadmapEntry>): (r: seq<RoadmapEntry>)
    ensures |r| == |s|
    decreases |s|
  {
    if s == [] then [] else Insert(SortByCycle(s[..|s| - 1]), s[|s| - 1])
  }

  /** Insertion adds exactly the one element. */
  lemma {:induction false} InsertPermutes(t: seq<RoadmapEntry>, x: RoadmapEntry)
    ensures multiset(Insert(t, x)) == multiset(t) + multiset{x}
    decreases |t|
  {
    if t != [] {
      assert t == t[..|t| - 1] + [t[|t| - 1]];
      InsertPermutes(t[..|t| - 1], x);
    }
  }

  /** The sort is a permutation of its input. */
  lemma {:induction false} SortPermutes(s: seq<RoadmapEntry>)
    ensures multiset(SortByCycle(s)) == multiset(s)
    decreases |s|
  {
    if s != [] {
      assert s == s[..|s| - 1] + [s[|s| - 1]];
      SortPermutes(s[..|s| - 1]);
      InsertPermutes(SortByCycle(s[..|s| - 1]), s[|s| - 1]);
    }
  }

  lemma InMultiset(s: seq<RoadmapEntry>, e: RoadmapEntry)
    ensures e in s <==> e in multiset(s)
  {
  }

  /** Every element of an insertion result is the inserted one or came from the sequence. */
  lemma InsertMember(t: seq<RoadmapEntry>, x: RoadmapEntry, e: RoadmapEntry)
    requires e in Insert(t, x)
    ensures e == x || e in t
  {
    InsertPermutes(t, x);
    assert e in multiset(Insert(t, x));
  }

  /** Appending an element that no element exceeds keeps a sequence sorted. */
  lemma AppendSorted(r: seq<RoadmapEntry>, y: RoadmapEntry)
    requires Sorted(r)
    requires forall i :: 0 <= i < |r| ==> InOrder(r[i], y)
    ensures Sorted(r + [y])
  {
  }

  /** Inserting into a sorted, wildcard-free sequence keeps it sorted. */
  lemma {:induction false} InsertSorted(t: seq<RoadmapEntry>, x: RoadmapEntry)
    requires Sorted(t) && WildcardFree(t) && NoWildcard(x.cycle)
    ensures Sorted(Insert(t, x))
    decreases |t|
  {
    if t != [] {
      var init, last := t[..|t| - 1], t[|t| - 1];
      if CompareVersions(x.cycle, last.cycle) == Less {
        InsertSorted(init, x);
        InsertBeforeLast(t, x);
      } else {
        AppendAfterLast(t, x);
      }
    }
  }

  /** `x` goes before the last element: the last element still ends the sorted insertion into the rest. */
  lemma InsertBeforeLast(t: seq<RoadmapEntry>, x: RoadmapEntry)
    requires t != [] && Sorted(t)
    requires CompareVersions(x.cycle, t[|t| - 1].cycle) == Less
    requires Sorted(Insert(t[..|t| - 1], x))
    ensures Sorted(Insert(t, x))
  {
    var init, last := t[..|t| - 1], t[|t| - 1];
    var r := Insert(init, x);
    forall i | 0 <= i < |r| ensures InOrder(r[i], last) {
      InsertMember(init, x, r[i]);
      if r[i] != x {
        var k :| 0 <= k < |init| && init[k] == r[i];
        assert t[k] == r[i];
      }
    }
    AppendSorted(r, last);
  }

  /** `x` does not compare below the last element: appending it keeps the order. */
  lemma AppendAfterLast(t: seq<RoadmapEntry>, x: RoadmapEntry)
    requires t != [] && Sorted(t) && WildcardFree(t) && NoWildcard(x.cycle)
    requires CompareVersions(x.cycle, t[|t| - 1].cycle) != Less
    ensures Sorted(t + [x])
  {
    var last := t[|t| - 1];
    CompareAntisymmetric(x.cycle, last.cycle);
    forall i | 0 <= i < |t| ensures InOrder(t[i], x) {
      CompareTransitive(t[i].cycle, last.cycle, x.cycle);
    }
    AppendSorted(t, x);
  }

  /** Without wildcards the insertion sort orders the entries by cycle. */
  lemma {:induction false} SortByCycleSorted(s: seq<RoadmapEntry>)
    requires WildcardFree(s)
    ensures Sorted(SortByCycle(s))
    decreases |s|
  {
    if s != [] {
      var init := s[..|s| - 1];
      SortByCycleSorted(init);
      var t := SortByCycle(init);
      SortPermutes(init);
      forall i | 0 <= i < |t| ensures NoWildcard(t[i].cycle) {
        assert t[i] in multiset(t);
        assert t[i] in multiset(init);
        var k :| 0 <= k < |init| && init[k] == t[i];
      }
      InsertSorted(t, s[|s| - 1]);
    }
  }

  /** The sort loses, duplicates and invents nothing. */
  lemma SortIsPermutation(s: seq<RoadmapEntry>)
    ensures multiset(SortByCycle(s)) == multiset(s)
    ensures forall e :: e in SortByCycle(s) <==> e in s
  {
    SortPermutes(s);
    forall e ensures e in SortByCycle(s) <==> e in s {
      InMultiset(SortByCycle(s), e);
      InMultiset(s, e);
    }
  }

  /**
   * The in-place `sort_by` call: the library's stable sort leaves the vector
   * holding `SortByCycle` of what it held before.
   */
  method SortEntries(a: array<RoadmapEntry>)
    modifies a
    ensures a[..] == SortByCycle(old(a[..]))
  {
    var sorted := SortByCycle(a[..]);
    forall i | 0 <= i < a.Length {
      a[i] := sorted[i];
    }
  }
}
