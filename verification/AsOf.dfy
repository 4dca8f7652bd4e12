/** A read-only view of a ref store with some refs overridden (`gix-refstore/src/as_of.rs`). */
module AsOf {
  import opened Wrappers
  import opened Order
  import opened Objects
  import opened RefStore
  import Names

  type Overrides = map<Text, Option<Object>>

  /** The ref map the view stands for. */
  ghost function Merged(inner: Refs, overrides: Overrides): Refs {
    map n | n in inner.Keys + overrides.Keys && (n in overrides ==> overrides[n].Some?) ::
      if n in overrides then overrides[n].value else inner[n]
  }

  datatype AsOfError = ReadOnly

  class AsOfRefStore {
    const inner: MemoryRefStore
    const overrides: Overrides

    constructor (inner: MemoryRefStore, overrides: Overrides)
      ensures this.inner == inner && this.overrides == overrides
    {
      this.inner := inner;
      this.overrides := overrides;
    }

    /** Answers as the merged map does. */
    method ReadRef(name: Text) returns (r: Option<Object>)
      ensures r == Read(Merged(inner.refs, overrides), name)
    {
      if name in overrides {
        r := overrides[name];
      } else {
        r := inner.ReadRef(name);
      }
    }

    /** Lists as the merged map does: the inner listing with each override under the prefix folded in. */
    method Prefixed(prefix: Text) returns (out: seq<(Text, Object)>)
      ensures out == SortedUnder(Merged(inner.refs, overrides), prefix)
    {
      var listed := inner.Prefixed(prefix);
      TextTotal();
      var merged := Collect(listed, Under(inner.refs, prefix));
      merged := Fold(merged, overrides, inner.refs, prefix);
      out := ListMap(merged);
    }

    /** Every write through the view is refused, and nothing changes. */
    method Apply(edits: seq<RefEdit>) returns (r: Result<(), AsOfError>)
      ensures r == Err(ReadOnly)
    {
      return Err(ReadOnly);
    }
  }

  /** Collecting a listing rebuilds the map it lists. */
  method Collect(listed: seq<(Text, Object)>, ghost source: Refs) returns (m: Refs)
    requires forall x :: x in listed <==> x.0 in source && source[x.0] == x.1
    ensures m == source
  {
    m := map[];
    for i := 0 to |listed|
      invariant forall n <- m :: n in source && m[n] == source[n]
      invariant forall j :: 0 <= j < i ==> listed[j].0 in m
    {
      assert listed[i] in listed;
      m := m[listed[i].0 := listed[i].1];
    }
    forall n <- source ensures n in m {
      assert (n, source[n]) in listed;
      var j :| 0 <= j < |listed| && listed[j] == (n, source[n]);
    }
  }

  function Put(refs: Refs, name: Text, over: Option<Object>): Refs {
    if over.Some? then refs[name := over.value] else refs - {name}
  }

  lemma MergedStep(inner: Refs, seen: Overrides, name: Text, over: Option<Object>)
    ensures Merged(inner, seen[name := over]) == Put(Merged(inner, seen), name, over)
  {
  }

  lemma UnderPut(refs: Refs, name: Text, over: Option<Object>, prefix: Text)
    ensures Under(Put(refs, name, over), prefix) ==
            if Names.IsUnder(name, prefix) then Put(Under(refs, prefix), name, over) else Under(refs, prefix)
  {
    hide Names.IsUnder;
  }

  lemma FoldStep(inner: Refs, seen: Overrides, name: Text, over: Option<Object>, prefix: Text)
    ensures var before := Under(Merged(inner, seen), prefix);
      Under(Merged(inner, seen[name := over]), prefix) ==
      if Names.IsUnder(name, prefix) then Put(before, name, over) else before
  {
    MergedStep(inner, seen, name, over);
    UnderPut(Merged(inner, seen), name, over, prefix);
  }

  /** Each override under the prefix, inserted or removed in turn. */
  method Fold(listed: Refs, overrides: Overrides, ghost inner: Refs, prefix: Text) returns (merged: Refs)
    requires listed == Under(inner, prefix)
    ensures merged == Under(Merged(inner, overrides), prefix)
  {
    merged := listed;
    var todo := overrides.Keys;
    ghost var seen: Overrides := map[];
    assert Merged(inner, seen) == inner;
    while todo != {}
      invariant todo <= overrides.Keys && seen.Keys == overrides.Keys - todo
      invariant forall n <- seen :: seen[n] == overrides[n]
      invariant merged == Under(Merged(inner, seen), prefix)
      decreases |todo|
    {
      var name :| name in todo;
      todo := todo - {name};
      if Names.IsUnder(name, prefix) {
        match overrides[name]
        case Some(id) => merged := merged[name := id];
        case None => merged := merged - {name};
      }
      FoldStep(inner, seen, name, overrides[name], prefix);
      seen := seen[name := overrides[name]];
    }
    assert seen == overrides;
  }

  /** A pair is listed exactly when its name is under the prefix and the view reads that value. */
  lemma ListedExactlyWhenRead(inner: Refs, overrides: Overrides, prefix: Text, name: Text, id: Object)
    ensures (name, id) in SortedUnder(Merged(inner, overrides), prefix) <==>
            Names.IsUnder(name, prefix) &&
            (if name in overrides then overrides[name] else Read(inner, name)) == Some(id)
  {
    TextTotal();
  }
}
