/**
 * `remove_null_values` (src/utils/remove_null_values.rs): prune a JSON tree of
 * its null members. An object first drops every field whose value is null and
 * then prunes each remaining value; an array first drops every null element
 * and then prunes each remaining element; any other value is left as it is.
 */
module NullRemoval {
  import opened JsonValues

  /** `map.retain(|_, v| !v.is_null())`. */
  function RetainFields(fields: map<string, Json>): map<string, Json> {
    map k | k in fields && !fields[k].Null? :: fields[k]
  }

  /** `arr.retain(|v| !v.is_null())`, element by element from the front. */
  function RetainItems(items: seq<Json>): (kept: seq<Json>)
    ensures forall i :: 0 <= i < |kept| ==> kept[i] in items && !kept[i].Null?
    decreases |items|
  {
    if items == [] then []
    else
      var init, last := items[..|items| - 1], items[|items| - 1];
      RetainItems(init) + (if last.Null? then [] else [last])
  }

  /** What the call leaves in place of `v`. */
  function Pruned(v: Json): Json
    decreases v
  {
    match v
    case Object(fields) =>
      var kept := RetainFields(fields);
      Object(map k | k in kept :: Pruned(kept[k]))
    case Array(items) =>
      var kept := RetainItems(items);
      Array(seq(|kept|, i requires 0 <= i < |kept| => assert kept[i] in items; Pruned(kept[i])))
    case _ => v
  }

  /** No object field and no array element anywhere inside `v` is null; `v` itself may be. */
  predicate Clean(v: Json)
    decreases v
  {
    match v
    case Object(fields) => forall k :: k in fields ==> !fields[k].Null? && Clean(fields[k])
    case Array(items) => forall i :: 0 <= i < |items| ==> !items[i].Null? && Clean(items[i])
    case _ => true
  }

  /** The in-place pruning, written over values: retain, then recurse into what is left. */
  method RemoveNullValues(v: Json) returns (r: Json)
    ensures r == Pruned(v)
    decreases v
  {
    match v {
      case Object(fields) =>
        var kept := RetainFieldsLoop(fields);
        var keys := kept.Keys;
        var m := kept;
        while keys != {}
          invariant keys <= kept.Keys && m.Keys == kept.Keys
          invariant forall k :: k in m ==> m[k] == if k in keys then kept[k] else Pruned(kept[k])
          decreases keys
        {
          var k :| k in keys;
          var pruned := RemoveNullValues(kept[k]);
          m := m[k := pruned];
          keys := keys - {k};
        }
        r := Object(m);
      case Array(items) =>
        var kept := RetainItemsLoop(items);
        var a := kept;
        for i := 0 to |a|
          invariant |a| == |kept|
          invariant forall j :: 0 <= j < |a| ==> a[j] == if j < i then Pruned(kept[j]) else kept[j]
        {
          assert kept[i] in items;
          var pruned := RemoveNullValues(kept[i]);
          a := a[i := pruned];
        }
        r := Array(a);
      case _ =>
        r := v;
    }
  }

  /** The object's `retain`: every field is visited once and kept when its value is not null. */
  method RetainFieldsLoop(fields: map<string, Json>) returns (kept: map<string, Json>)
    ensures kept == RetainFields(fields)
  {
    kept := map[];
    var todo := fields.Keys;
    while todo != {}
      invariant todo <= fields.Keys
      invariant kept.Keys <= fields.Keys - todo
      invariant forall k :: k in fields.Keys - todo && !fields[k].Null? ==> k in kept
      invariant forall k :: k in kept ==> kept[k] == fields[k] && !fields[k].Null?
      decreases todo
    {
      var k :| k in todo;
      if !fields[k].Null? {
        kept := kept[k := fields[k]];
      }
      todo := todo - {k};
    }
  }

  /** The array's `retain`: the elements are visited in order and the non-null ones kept. */
  method RetainItemsLoop(items: seq<Json>) returns (kept: seq<Json>)
    ensures kept == RetainItems(items)
  {
    kept := [];
    for i := 0 to |items|
      invariant kept == RetainItems(items[..i])
    {
      assert items[..i + 1][..i] == items[..i];
      if !items[i].Null? {
        kept := kept + [items[i]];
      }
    }
    assert items[..|items|] == items;
  }

  // ---------------------------------------------------------------------------
  // What the pruning promises

  /** Afterwards no object field and no array element anywhere in the tree is null. */
  lemma {:induction false} PrunedIsClean(v: Json)
    ensures Clean(Pruned(v))
    decreases v
  {
    match v
    case Object(fields) =>
      var kept := RetainFields(fields);
      forall k | k in kept ensures !Pruned(kept[k]).Null? && Clean(Pruned(kept[k])) {
        PrunedIsClean(kept[k]);
        PrunedKeepsKind(kept[k]);
      }
    case Array(items) =>
      var kept := RetainItems(items);
      forall i | 0 <= i < |kept| ensures !Pruned(kept[i]).Null? && Clean(Pruned(kept[i])) {
        assert kept[i] in kept;
        PrunedIsClean(kept[i]);
        PrunedKeepsKind(kept[i]);
      }
    case _ =>
  }

  /** Pruning keeps the kind of every value, and leaves null, booleans, numbers and strings unchanged. */
  lemma PrunedKeepsKind(v: Json)
    ensures Pruned(v).Null? == v.Null? && Pruned(v).Object? == v.Object? && Pruned(v).Array? == v.Array?
    ensures !v.Object? && !v.Array? ==> Pruned(v) == v
  {
  }

  /** Retaining from a sequence without nulls keeps all of it. */
  lemma {:induction false} RetainItemsNoNull(items: seq<Json>)
    requires forall i :: 0 <= i < |items| ==> !items[i].Null?
    ensures RetainItems(items) == items
    decreases |items|
  {
    if items != [] {
      RetainItemsNoNull(items[..|items| - 1]);
    }
  }

  /** A tree that is already clean is left unchanged. */
  lemma {:induction false} CleanIsUnchanged(v: Json)
    requires Clean(v)
    ensures Pruned(v) == v
    decreases v
  {
    match v
    case Object(fields) =>
      var kept := RetainFields(fields);
      assert kept == fields;
      forall k | k in fields ensures Pruned(fields[k]) == fields[k] {
        CleanIsUnchanged(fields[k]);
      }
    case Array(items) =>
      RetainItemsNoNull(items);
      forall i | 0 <= i < |items| ensures Pruned(items[i]) == items[i] {
        CleanIsUnchanged(items[i]);
      }
    case _ =>
  }

  /** A second call changes nothing. */
  lemma PruneIdempotent(v: Json)
    ensures Pruned(Pruned(v)) == Pruned(v)
  {
    PrunedIsClean(v);
    CleanIsUnchanged(Pruned(v));
  }

  /** An object keeps exactly the keys whose values were not null, each with its value pruned. */
  lemma ObjectKeepsNonNullKeys(fields: map<string, Json>)
    ensures Pruned(Object(fields)).Object?
    ensures forall k :: k in Pruned(Object(fields)).fields <==> k in fields && !fields[k].Null?
    ensures forall k :: k in Pruned(Object(fields)).fields ==> Pruned(Object(fields)).fields[k] == Pruned(fields[k])
  {
  }

  /** The positions of the non-null elements, in increasing order. */
  function KeptIndices(items: seq<Json>): (idx: seq<nat>)
    ensures forall j :: 0 <= j < |idx| ==> idx[j] < |items|
    decreases |items|
  {
    if items == [] then []
    else
      var n := |items| - 1;
      KeptIndices(items[..n]) + (if items[n].Null? then [] else [n])
  }

  /** The kept positions increase, and every non-null element has its position among them. */
  lemma {:induction false} KeptIndicesInOrder(items: seq<Json>)
    ensures forall j1, j2 :: 0 <= j1 < j2 < |KeptIndices(items)| ==> KeptIndices(items)[j1] < KeptIndices(items)[j2]
    ensures forall i :: 0 <= i < |items| && !items[i].Null? ==> i in KeptIndices(items)
    decreases |items|
  {
    if items != [] {
      var n := |items| - 1;
      var init := items[..n];
      KeptIndicesInOrder(init);
      forall i | 0 <= i < n && !items[i].Null? ensures i in KeptIndices(init) {
        assert !init[i].Null?;
      }
    }
  }

  /** The `j`-th retained element is the element at the `j`-th kept position. */
  lemma {:induction false} RetainAtKeptIndices(items: seq<Json>)
    ensures |KeptIndices(items)| == |RetainItems(items)|
    ensures forall j :: 0 <= j < |KeptIndices(items)| ==> RetainItems(items)[j] == items[KeptIndices(items)[j]]
    decreases |items|
  {
    if items != [] {
      var n := |items| - 1;
      var init := items[..n];
      RetainAtKeptIndices(init);
      var idx, kept := KeptIndices(items), RetainItems(items);
      var idx0, kept0 := KeptIndices(init), RetainItems(init);
      forall j | 0 <= j < |idx| ensures kept[j] == items[idx[j]] {
        if j < |idx0| {
          assert kept[j] == kept0[j] && idx[j] == idx0[j];
          assert init[idx0[j]] == items[idx0[j]];
        }
      }
    }
  }

  /** Surviving array elements keep their relative order: each is the pruned element at an increasing original position. */
  lemma ArrayKeepsOrder(items: seq<Json>)
    ensures Pruned(Array(items)).Array?
    ensures var r, idx := Pruned(Array(items)).items, KeptIndices(items);
      && |r| == |idx|
      && (forall j :: 0 <= j < |r| ==> r[j] == Pruned(items[idx[j]]))
      && (forall j1, j2 :: 0 <= j1 < j2 < |idx| ==> idx[j1] < idx[j2])
      && (forall i :: 0 <= i < |items| && !items[i].Null? ==> i in idx)
  {
    KeptIndicesInOrder(items);
    RetainAtKeptIndices(items);
  }

  /** Retaining from a sequence of nulls keeps nothing. */
  lemma {:induction false} RetainAllNull(items: seq<Json>)
    requires forall i :: 0 <= i < |items| ==> items[i].Null?
    ensures RetainItems(items) == []
    decreases |items|
  {
    if items != [] {
      RetainAllNull(items[..|items| - 1]);
    }
  }

  /** An array whose elements were all null stays, empty. */
  lemma AllNullArrayLeavesEmpty(items: seq<Json>)
    requires forall i :: 0 <= i < |items| ==> items[i].Null?
    ensures Pruned(Array(items)) == Array([])
  {
    RetainAllNull(items);
  }

  /** An object whose fields were all null stays, empty. */
  lemma AllNullObjectLeavesEmpty(fields: map<string, Json>)
    requires forall k :: k in fields ==> fields[k].Null?
    ensures Pruned(Object(fields)) == Object(map[])
  {
    assert RetainFields(fields) == map[];
  }

  /** `{"a": null, "b": [1, null]}` becomes `{"b": [1]}`. */
  lemma NestedExample()
    ensures Pruned(Object(map["a" := Null, "b" := Array([Number(1), Null])])) == Object(map["b" := Array([Number(1)])])
  {
    var items := [Number(1), Null];
    assert items[..1] == [Number(1)];
    assert RetainItems(items) == [Number(1)];
    assert Pruned(Array(items)) == Array([Number(1)]);
    var fields := map["a" := Null, "b" := Array(items)];
    assert RetainFields(fields) == map["b" := Array(items)];
    var r := Pruned(Object(fields));
    assert r.fields.Keys == {"b"};
    assert r.fields["b"] == Array([Number(1)]);
    assert r.fields == map["b" := Array([Number(1)])];
  }
}
