/** Listing a kind through its index (`git-store/src/index.rs`, `kind.rs`): the index is a cache, and a
    listing is right whatever its ref holds. */
module KindListing {
  import opened Wrappers
  import opened Order
  import opened Objects
  import opened RefStore
  import opened SharedStore
  import opened Names
  import opened IndexCodec
  import opened Layout
  import opened Kind
  import opened KindClient
  import opened Index

  /** Whatever tree it is given, `read_tree` yields valid names in strictly ascending order. */
  lemma ReadTreeOrdered(tree: Object)
    requires ReadTree(tree).Some?
    ensures Ascending(PathLess, ReadTree(tree).value)
    ensures forall x <- ReadTree(tree).value :: ValidPath(x.0)
  {
    ReadTreeMeaning(tree);
    forall x <- ReadTree(tree).value ensures ValidPath(x.0) {
      var i :| 0 <= i < |tree.entries| && BackAt(tree.entries, i, x);
      DecodedValid(tree.entries[i].filename);
    }
  }

  /** The cached entries, when they are usable for `source`. */
  function Validated(index: Option<Object>, source: Listed): Option<Listed> {
    if index.Some? && ReadTree(index.value) == Some(source) then Some(source) else None
  }

  method AllUnder(entries: Listed, kind: Text) returns (all: bool)
    requires forall x <- entries :: ValidPath(x.0)
    ensures all
  {
    for i := 0 to |entries|
    {
      RelativeOfJoin(Entities(kind), entries[i].0);
      if !IsUnder(JoinPath(Entities(kind), entries[i].0), Entities(kind)) { return false; }
    }
    return true;
  }

  /** The check that every cached name stays under its prefix never fails: a decoded name is valid. */
  method ReadValidated(store: SharedStore, kind: Text, source: Listed) returns (r: Option<Listed>)
    modifies store, store.memory
    ensures store.Now() == Meet(old(store.Now()), old(store.moves)) && store.moves == Later(old(store.moves))
    ensures store.seen == old(store.seen) + [store.Now()] && store.landed == old(store.landed)
    ensures r == Validated(Read(store.memory.refs, IndexRef(kind)), source)
  {
    var index := store.ReadRef(IndexRef(kind));
    if index == None { return None; }
    var read := ReadTree(index.value);
    if read == None { return None; }
    ReadTreeOrdered(index.value);
    if read.value != source { return None; }
    var under := AllUnder(read.value, kind);
    return if under then read else None;
  }

  /** Stale, malformed or absent, the index never changes what is listed: the source of one instant. */
  method ListEntries(store: SharedStore, kind: Text) returns (out: Listed)
    modifies store, store.memory
    ensures var a := Meet(old(store.Now()), old(store.moves));
      && store.seen == old(store.seen) + [a, store.Now()] && store.landed == old(store.landed)
      && store.Now() == Meet(a, Later(old(store.moves))) && store.moves == Later(Later(old(store.moves)))
      && out == ListingOf(Source(a.refs, kind))
  {
    out := SourceEntries(store, kind);
    Assoc(old(store.seen), [store.Now()], [Meet(store.Now(), store.moves)]);
    var cached := ReadValidated(store, kind, out);
    if cached.Some? { out := cached.value; }
  }

  /** And the cache is used exactly when it is readable and names the very entities listed. */
  lemma UsedWhenRight(index: Option<Object>, m: map<Path, Object>)
    ensures Validated(index, ListingOf(m)).Some? <==>
      index.Some? && ReadTree(index.value).Some? && IndexMap(index) == m
  {
    MapOfListing(m);
    if index.Some? && ReadTree(index.value).Some? && IndexMap(index) == m {
      var entries := ReadTree(index.value).value;
      ReadTreeOrdered(index.value);
      PathTotal();
      forall x ensures x in entries <==> x in ListingOf(m) {
        if x in entries {
          FirstOfAscending(entries, x);
          assert x.0 in (set y | y in entries :: y.0);
        }
        if x in ListingOf(m) {
          assert x.0 in MapOf(entries);
          var y :| y in entries && y.0 == x.0;
          FirstOfAscending(entries, y);
        }
      }
      AscendingUnique(PathLess, entries, ListingOf(m));
    }
  }

  /** Every index a writer leaves in agreement is accepted by the next listing. */
  lemma WrittenIsUsed(refs: Refs, kind: Text)
    requires Agrees(refs, kind) && Source(refs, kind) != map[]
    requires forall p <- Source(refs, kind) :: Indexable(p)
    ensures Validated(Read(refs, IndexRef(kind)), ListingOf(Source(refs, kind))) == Some(ListingOf(Source(refs, kind)))
  {
    var entries := ListingOf(Source(refs, kind));
    forall i | 0 <= i < |entries| ensures Indexable(entries[i].0) { assert entries[i] in entries; }
    ReadWritten(entries);
  }

  // ---- rebuilding ----

  /** The edit `rebuild_index` makes of one listing and the index ref read after it: unlike a writer's, it
      rewrites an index that is right already. */
  function RebuildEdit(reference: Text, current: Option<Object>, source: Listed): Option<RefEdit> {
    if source == [] then
      if current.Some? then Some(Delete(reference, current.value)) else None
    else
      match current
      case Some(expected) => Some(Update(reference, expected, WriteTree(source)))
      case None => Some(Create(reference, WriteTree(source)))
  }

  /** A rebuild that lands sets the index to the listing it read and moves no entity. */
  lemma RebuildEffect(refs: Refs, kind: Text, current: Option<Object>, m: map<Path, Object>)
    ensures match RebuildEdit(IndexRef(kind), current, ListingOf(m))
            case None => m == map[] && current == None
            case Some(e) =>
              && e.name == IndexRef(kind) && (Holds(refs, e) <==> Read(refs, IndexRef(kind)) == current)
              && Read(Write(refs, e), IndexRef(kind)) == IndexValue(m)
              && Source(Write(refs, e), kind) == Source(refs, kind)
  {
    if m == map[] {
      assert ListingOf(m) == [];
    } else {
      var k :| k in m;
      assert (k, m[k]) in ListingOf(m);
    }
    match RebuildEdit(IndexRef(kind), current, ListingOf(m))
    case None =>
    case Some(e) => IndexWrite(refs, kind, e, kind);
  }

  /** The attempt over the accesses `did` went through, and left `refs`: with nothing to write, or by landing
      the one edit its two reads make. */
  ghost predicate Rebuilt(kind: Text, did: seq<Access>, refs: Refs, landed: seq<Landing>) {
    && |did| >= 2
    && var edit := RebuildEdit(IndexRef(kind), Read(did[1].refs, IndexRef(kind)), ListingOf(Source(did[0].refs, kind)));
    if edit == None then |did| == 2 && landed == [] && refs == did[1].refs
    else
      && |did| == 3 && landed == [Landing(did[2].refs, [edit.value])]
      && Holds(did[2].refs, edit.value) && refs == Write(did[2].refs, edit.value)
  }

  /** So the index is that of the listing, no entity has moved, and nothing else has. */
  lemma RebuiltMeans(kind: Text, did: seq<Access>, refs: Refs, landed: seq<Landing>)
    requires Rebuilt(kind, did, refs, landed)
    ensures Read(refs, IndexRef(kind)) == IndexValue(Source(did[0].refs, kind))
    ensures Source(refs, kind) == Source(did[|did| - 1].refs, kind)
    ensures forall name :: name != IndexRef(kind) ==> Read(refs, name) == Read(did[|did| - 1].refs, name)
  {
    RebuildEffect(did[|did| - 1].refs, kind, Read(did[1].refs, IndexRef(kind)), Source(did[0].refs, kind));
  }

  /** So, exactly: the rebuilt index agrees if and only if the entities are still those of the listing. */
  lemma RebuiltAgrees(kind: Text, did: seq<Access>, refs: Refs, landed: seq<Landing>)
    requires Rebuilt(kind, did, refs, landed)
    requires AllIndexable(Source(did[0].refs, kind)) && AllIndexable(Source(did[|did| - 1].refs, kind))
    ensures Agrees(refs, kind) <==> Source(did[0].refs, kind) == Source(did[|did| - 1].refs, kind)
  {
    var listed, left := Source(did[0].refs, kind), Source(did[|did| - 1].refs, kind);
    RebuiltMeans(kind, did, refs, landed);
    if listed != left { IndexesDiffer(listed, left); }
  }

  lemma RebuildLands(kind: Text, a: Access, b: Access, c: Access, e: RefEdit)
    requires RebuildEdit(IndexRef(kind), Read(b.refs, IndexRef(kind)), ListingOf(Source(a.refs, kind))) == Some(e)
    ensures if ApplyBatch(c.refs, [e]).Ok?
            then Rebuilt(kind, [a, b, c], ApplyBatch(c.refs, [e]).value, [Landing(c.refs, [e])])
            else b.refs != c.refs
  {
    RebuildEffect(c.refs, kind, Read(b.refs, IndexRef(kind)), Source(a.refs, kind));
    ApplyOne(c.refs, e);
  }

  /** The two reads of an attempt: the listing, then the index ref. */
  method RebuildReads(store: SharedStore, kind: Text) returns (edit: Option<RefEdit>, ghost a: Access, ghost b: Access)
    modifies store, store.memory
    ensures store.landed == old(store.landed) && store.seen == old(store.seen) + [a, b]
    ensures a == Meet(old(store.Now()), old(store.moves)) && b == Meet(a, Later(old(store.moves)))
    ensures store.Now() == b && store.moves == Later(Later(old(store.moves)))
    ensures edit == RebuildEdit(IndexRef(kind), Read(b.refs, IndexRef(kind)), ListingOf(Source(a.refs, kind)))
  {
    var source := SourceEntries(store, kind);
    a := store.Now();
    var current := store.ReadRef(IndexRef(kind));
    b := store.Now();
    Assoc(old(store.seen), [a], [b]);
    edit := RebuildEdit(IndexRef(kind), current, source);
  }

  /** One attempt: done when nothing was to be written or the write landed. */
  method RebuildOnce(store: SharedStore, kind: Text)
    returns (done: bool, ghost did: seq<Access>, ghost landed: seq<Landing>)
    modifies store, store.memory
    ensures store.seen == old(store.seen) + did && store.landed == old(store.landed) + landed
    ensures Served(old(store.Now()), old(store.moves), did, store.moves)
    ensures if done then Rebuilt(kind, did, store.memory.refs, landed)
            else landed == [] && store.Now() == Last(old(store.Now()), did) && |store.moves| < |old(store.moves)|
  {
    ghost var start, queued := store.Now(), store.moves;
    var edit, a, b := RebuildReads(store, kind);
    ServedTwice(start, queued, [], queued, a, b);
    assert [] + [a, b] == [a, b];
    landed := [];
    if edit == None { return true, [a, b], landed; }
    ghost var c, left := Meet(store.Now(), store.moves), store.moves;
    var applied := store.Apply([edit.value]);
    ServedOn(start, queued, [a, b], left, c);
    RebuildLands(kind, a, b, c, edit.value);
    Assoc(old(store.seen), [a, b], [c]);
    assert [a, b] + [c] == [a, b, c];
    return applied.Ok?, [a, b, c], if applied.Ok? then [Landing(c.refs, [edit.value])] else [];
  }

  /** The listing is read before the index ref, so under contention the index may be left at an older
      listing; with nobody in between it is left in agreement, whatever it held. `lost` are the accesses of
      the attempts that lost their race, `did` those of the one that did not. */
  method RebuildIndex(store: SharedStore, kind: Text)
    returns (ghost lost: seq<Access>, ghost did: seq<Access>, ghost landed: seq<Landing>)
    modifies store, store.memory
    ensures store.seen == old(store.seen) + (lost + did) && store.landed == old(store.landed) + landed
    ensures Served(old(store.Now()), old(store.moves), lost + did, store.moves)
    ensures Rebuilt(kind, did, store.memory.refs, landed)
    ensures Read(store.memory.refs, IndexRef(kind)) == IndexValue(Source(did[0].refs, kind))
    ensures Source(store.memory.refs, kind) == Source(did[|did| - 1].refs, kind)
    ensures old(store.moves) == [] ==>
      Agrees(store.memory.refs, kind) && Source(store.memory.refs, kind) == Source(old(store.memory.refs), kind)
  {
    ghost var start, queued := store.Now(), store.moves;
    lost := [];
    while true
      invariant store.seen == old(store.seen) + lost && Served(start, queued, lost, store.moves)
      invariant store.Now() == Last(start, lost) && store.landed == old(store.landed)
      decreases |store.moves|
    {
      ghost var left := store.moves;
      var done, more, batch := RebuildOnce(store, kind);
      Assoc(old(store.seen), lost, more);
      ServedAppend(start, queued, lost, left, more, store.moves);
      if done {
        did, landed := more, batch;
        RebuiltMeans(kind, did, store.memory.refs, landed);
        if queued == [] { ServedAlone(start, lost + did, store.moves); AloneInBoth(start, lost, did); }
        return;
      }
      lost := lost + more;
    }
  }

  lemma AloneInBoth(start: Access, lost: seq<Access>, did: seq<Access>)
    requires forall i :: 0 <= i < |lost + did| ==> (lost + did)[i] == start
    ensures forall i :: 0 <= i < |did| ==> did[i] == start
  {
    forall i | 0 <= i < |did| ensures did[i] == start { assert (lost + did)[|lost| + i] == did[i]; }
  }
}
