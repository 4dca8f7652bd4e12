/** Pruning a name outright (`Kind::remove`, `git-store/src/kind.rs`). */
module KindRemoval {
  import opened Wrappers
  import opened Order
  import opened Objects
  import opened RefStore
  import opened SharedStore
  import opened Names
  import opened Layout
  import opened Kind
  import opened KindAlone
  import opened KindClient
  import Index

  lemma SourceOfDelete(refs: Refs, kind: Text, name: Path)
    requires ValidPath(name)
    ensures Source(refs - {EntityRef(kind, name)}, kind) == Source(refs, kind) - {name}
  {
    var after := refs - {EntityRef(kind, name)};
    forall q ensures q in Source(after, kind) <==> q in Source(refs, kind) - {name}
      ensures q in Source(after, kind) ==> Source(after, kind)[q] == Source(refs, kind)[q]
    {
      SourceMember(after, kind, q);
      SourceMember(refs, kind, q);
      if ValidPath(q) && EntityRef(kind, q) == EntityRef(kind, name) {
        RelativeOfJoin(Entities(kind), name);
        RelativeOfJoin(Entities(kind), q);
      }
    }
  }

  /** The listing with one name filtered out. */
  method Without(entries: Index.Listed, name: Path, ghost m: map<Path, Object>) returns (out: Index.Listed)
    requires entries == Index.ListingOf(m)
    ensures out == Index.ListingOf(m - {name})
  {
    PathTotal();
    out := [];
    for i := 0 to |entries|
      invariant Ascending(PathLess, out)
      invariant forall x :: x in out <==> x in entries[..i] && x.0 != name
    {
      if entries[i].0 != name {
        forall j | 0 <= j < |out| ensures PathLess(out[j].0, entries[i].0) {
          assert out[j] in out;
          var k :| 0 <= k < i && entries[k] == out[j];
        }
        out := out + [entries[i]];
      }
    }
    assert entries[..|entries|] == entries;
    AscendingUnique(PathLess, out, Index.ListingOf(m - {name}));
  }

  /** The batch of one attempt, from the commit, the index and the source it read. */
  ghost function RemovalBatch(kind: Text, name: Path, past: Object, index: Option<Object>, source: map<Path,
                              Object>): seq<RefEdit>
    requires name != []
  {
    [Delete(EntityRef(kind, name), past)] + Opt(IndexEdit(kind, index, source - {name}))
  }

  lemma DeleteEffect(refs: Refs, kind: Text, name: Path, past: Object)
    requires ValidPath(name)
    ensures var after := Write(refs, Delete(EntityRef(kind, name), past));
      && Source(after, kind) == Source(refs, kind) - {name}
      && Read(after, IndexRef(kind)) == Read(refs, IndexRef(kind))
  {
    SourceOfDelete(refs, kind, name);
    RelativeOfJoin(Entities(kind), name);
    IndexApart(kind, kind);
  }

  lemma IndexEffect(refs: Refs, kind: Text, index: Option<Object>, entries: map<Path, Object>)
    ensures var edit := IndexEdit(kind, index, entries);
      var after := if edit.Some? then Write(refs, edit.value) else refs;
      && Source(after, kind) == Source(refs, kind)
      && (Read(refs, IndexRef(kind)) == index ==> Read(after, IndexRef(kind)) == Index.IndexValue(entries))
  {
    EditShape(kind, index, entries);
    var edit := IndexEdit(kind, index, entries);
    if edit.Some? { IndexWrite(refs, kind, edit.value, kind); }
  }

  /** A removal that lands takes the name out of the source, and over a listing and an index that were
      current it leaves the index in agreement. */
  lemma RemovalEffect(refs: Refs, kind: Text, name: Path, past: Object, index: Option<Object>, source: map<Path,
                      Object>)
    requires ValidPath(name)
    requires ApplyBatch(refs, RemovalBatch(kind, name, past, index, source)).Ok?
    ensures Read(refs, EntityRef(kind, name)) == Some(past)
    ensures var after := ApplyBatch(refs, RemovalBatch(kind, name, past, index, source)).value;
      && Source(after, kind) == Source(refs, kind) - {name}
      && (source == Source(refs, kind) && index == Read(refs, IndexRef(kind)) ==> Agrees(after, kind))
  {
    var e := Delete(EntityRef(kind, name), past);
    var edit := IndexEdit(kind, index, source - {name});
    assert RemovalBatch(kind, name, past, index, source) == Opt(Some(e)) + Opt(edit);
    ApplyBatchCases(refs, Some(e), edit);
    DeleteEffect(refs, kind, name, past);
    IndexEffect(Write(refs, e), kind, index, source - {name});
  }

  /** What a run of `remove` did at its last attempt, from what it met at each access. */
  ghost predicate Removed(kind: Text, name: Path, did: seq<Access>, landed: seq<Landing>)
    requires name != []
  {
    var n := |did|;
    && n >= 4 && EntityRef(kind, name) in did[n - 4].refs
    && landed == [Landing(did[n - 1].refs, RemovalBatch(kind, name, did[n - 4].refs[EntityRef(kind, name)],
                                                        Read(did[n - 3].refs, IndexRef(kind)),
                                                             Source(did[n - 2].refs, kind)))]
  }

  lemma QuietRemoval(refs: Refs, kind: Text, name: Path)
    requires ValidSegment(kind) && ValidPath(name) && EntityRef(kind, name) in refs
    ensures ApplyBatch(refs, RemovalBatch(kind, name, refs[EntityRef(kind, name)],
                                          Read(refs, IndexRef(kind)), Source(refs, kind))).Ok?
  {
    var e := Delete(EntityRef(kind, name), refs[EntityRef(kind, name)]);
    EditShape(kind, Read(refs, IndexRef(kind)), Source(refs, kind) - {name});
    BothHold(refs, Some(e), IndexEdit(kind, Read(refs, IndexRef(kind)), Source(refs, kind) - {name}));
  }

  method Gather(store: SharedStore, kind: Text, name: Path, past: Object)
    returns (edits: seq<RefEdit>, ghost b: Access, ghost c: Access)
    requires ValidPath(name)
    modifies store, store.memory
    ensures store.seen == old(store.seen) + [b, c] && store.landed == old(store.landed)
    ensures edits == RemovalBatch(kind, name, past, Read(b.refs, IndexRef(kind)), Source(c.refs, kind))
    ensures b == Meet(old(store.Now()), old(store.moves)) && c == Meet(b, Later(old(store.moves)))
    ensures store.Now() == c && store.moves == Later(Later(old(store.moves)))
  {
    var index := store.ReadRef(IndexRef(kind));
    b := store.Now();
    var next := SourceEntries(store, kind);
    c := store.Now();
    next := Without(next, name, Source(c.refs, kind));
    Assoc(old(store.seen), [b], [c]);
    edits := [Delete(EntityRef(kind, name), past)] + Opt(Index.Edit(IndexRef(kind), index, next));
  }

  lemma RemovedAfter(kind: Text, name: Path, before: seq<Access>, did: seq<Access>, landed: seq<Landing>)
    requires name != [] && Removed(kind, name, did, landed)
    ensures Removed(kind, name, before + did, landed)
  {
    hide RemovalBatch, Source;
    var n, all := |did|, before + did;
    assert all[|all| - 4] == did[n - 4] && all[|all| - 3] == did[n - 3] && all[|all| - 2] == did[n - 2]
        && all[|all| - 1] == did[n - 1];
  }

  /** What a removal came to at `refs`: gone, by one landed batch, or not there and nothing landed. */
  ghost predicate Came(kind: Text, name: Path, existed: bool, did: seq<Access>, landed: seq<Landing>, refs: Refs)
    requires name != [] && did != []
  {
    if existed then
      Removed(kind, name, did, landed) && refs == Publish(landed[0].before, landed[0].edits)
      && name !in Source(refs, kind)
    else landed == [] && EntityRef(kind, name) !in refs && refs == did[|did| - 1].refs
  }

  lemma LandedRemoval(kind: Text, name: Path, a: Access, b: Access, c: Access, d: Access, edits: seq<RefEdit>)
    requires ValidSegment(kind) && ValidPath(name) && EntityRef(kind, name) in a.refs
    requires edits == RemovalBatch(kind, name, a.refs[EntityRef(kind, name)], Read(b.refs, IndexRef(kind)),
                                   Source(c.refs, kind))
    requires ApplyBatch(d.refs, edits).Ok?
    ensures Came(kind, name, true, [a, b, c, d], [Landing(d.refs, edits)], ApplyBatch(d.refs, edits).value)
    ensures a.refs == b.refs == c.refs == d.refs ==> Agrees(ApplyBatch(d.refs, edits).value, kind)
  {
    RemovalEffect(d.refs, kind, name, a.refs[EntityRef(kind, name)], Read(b.refs, IndexRef(kind)),
                  Source(c.refs, kind));
  }

  /** One time around the loop; nothing when a race was lost, and then the others have written since. */
  method RemoveOnce(store: SharedStore, kind: Text, name: Path)
    returns (r: Option<bool>, ghost did: seq<Access>, ghost landed: seq<Landing>)
    requires ValidSegment(kind) && ValidPath(name)
    modifies store, store.memory
    ensures store.seen == old(store.seen) + did && did != [] && store.landed == old(store.landed) + landed
    ensures Served(old(store.Now()), old(store.moves), did, store.moves)
    ensures r.Some? ==> Came(kind, name, r.value, did, landed, store.memory.refs)
    ensures r == None ==>
      landed == [] && store.Now() == Last(old(store.Now()), did) && |store.moves| < |old(store.moves)|
    ensures old(store.moves) == [] && r == Some(true) ==> Agrees(store.memory.refs, kind)
  {
    landed := [];
    ghost var start, queued := store.Now(), store.moves;
    var current := store.ReadRef(EntityRef(kind, name));
    ghost var a := store.Now();
    ServedFirst(start, queued);
    if current == None { return Some(false), [a], landed; }
    var edits, b, c := Gather(store, kind, name, current.value);
    ghost var last, left := Meet(store.Now(), store.moves), store.moves;
    var applied := store.Apply(edits);
    ServedFour(start, queued, a, b, c, last);
    did := [a, b, c, last];
    FourSeen(old(store.seen), a, b, c, last);
    if applied.Ok? {
      LandedRemoval(kind, name, a, b, c, last, edits);
      return Some(true), did, [Landing(last.refs, edits)];
    }
    if old(store.moves) == [] { QuietRemoval(a.refs, kind, name); }
    return None, did, landed;
  }

  lemma ServedFour(start: Access, queued: seq<Move>, a: Access, b: Access, c: Access, d: Access)
    requires Served(start, queued, [a], Later(queued)) && b == Meet(a, Later(queued))
    requires c == Meet(b, Later(Later(queued))) && d == Meet(c, Later(Later(Later(queued))))
    ensures Served(start, queued, [a, b, c, d], Later(Later(Later(Later(queued)))))
  {
    ServedTwice(start, queued, [a], Later(queued), b, c);
    ServedOn(start, queued, [a] + [b, c], Later(Later(Later(queued))), d);
    assert [a] + [b, c] + [d] == [a, b, c, d];
  }

  lemma FourSeen(seen: seq<Access>, a: Access, b: Access, c: Access, d: Access)
    ensures seen + [a] + [b, c] + [d] == seen + [a, b, c, d]
  {
  }

  /** True when the name was removed, by one landed batch; false when there was nothing at it. */
  method Remove(store: SharedStore, kind: Text, name: Path)
    returns (existed: bool, ghost did: seq<Access>, ghost landed: seq<Landing>)
    requires ValidSegment(kind) && ValidPath(name)
    modifies store, store.memory
    ensures store.seen == old(store.seen) + did && did != [] && store.landed == old(store.landed) + landed
    ensures Served(old(store.Now()), old(store.moves), did, store.moves)
    ensures !existed ==> store.memory.refs == OnlyOthers(old(store.Now()), old(store.moves), |did|).refs
    ensures !existed && old(store.moves) == [] ==> store.memory.refs == old(store.memory.refs)
    ensures Came(kind, name, existed, did, landed, store.memory.refs)
    ensures existed && old(store.moves) == [] ==> Agrees(store.memory.refs, kind)
  {
    ghost var start, queued := store.Now(), store.moves;
    did := [];
    while true
      invariant store.seen == old(store.seen) + did && store.landed == old(store.landed)
      invariant Served(start, queued, did, store.moves) && store.Now() == Last(start, did)
      invariant did != [] ==> old(store.moves) != []
      invariant did == [] ==> store.moves == old(store.moves)
      decreases |store.moves|
    {
      ghost var left := store.moves;
      var r, more, batch := RemoveOnce(store, kind, name);
      Assoc(old(store.seen), did, more);
      ServedAppend(start, queued, did, left, more, store.moves);
      if r.Some? {
        if r.value { RemovedAfter(kind, name, did, more, batch); }
        ServedInTurn(start, queued, did + more, store.moves);
        if queued == [] { ServedAlone(start, did + more, store.moves); }
        return r.value, did + more, batch;
      }
      did := did + more;
    }
  }

  /** Nothing that removes a name outright moves its kind forward. */
  lemma RemovalNotForward(refs: Refs, kind: Text, name: Path, past: Object, index: Option<Object>,
                          source: map<Path, Object>)
    requires ValidPath(name) && ApplyBatch(refs, RemovalBatch(kind, name, past, index, source)).Ok?
    ensures var after := ApplyBatch(refs, RemovalBatch(kind, name, past, index, source)).value;
      !Forward(Source(refs, kind), Source(after, kind))
  {
    RemovalEffect(refs, kind, name, past, index, source);
    SourceMember(refs, kind, name);
  }
}
