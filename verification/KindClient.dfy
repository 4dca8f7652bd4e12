/** The client's side of a kind, step by step (`git-store/src/kind.rs`, `index.rs`): each method goes to
    the shared store once for every read and every batch, and the others may write before each. */
module KindClient {
  import opened Wrappers
  import opened Order
  import opened Objects
  import opened RefStore
  import opened SharedStore
  import opened Names
  import opened Layout
  import opened Kind
  import opened KindAlone
  import opened KindTrace
  import Index

  type Listed = Index.Listed

  // ---- the source listing ----

  lemma SortedListing(refs: Refs, kind: Text, pairs: seq<(Text, Object)>, out: Listed)
    requires pairs == SortedUnder(refs, Entities(kind))
    requires DistinctKeys(out)
    requires forall x <- out :: ValidPath(x.0) && (EntityRef(kind, x.0), x.1) in pairs
    requires forall y <- pairs :: RelativeTo(y.0, Entities(kind)).Some? ==>
      (RelativeTo(y.0, Entities(kind)).value, y.1) in out
    ensures Sort(PathLess, out) == Index.ListingOf(Source(refs, kind))
  {
    PathTotal();
    var listing := Index.ListingOf(Source(refs, kind));
    forall x ensures x in out <==> x in listing {
      SourceMember(refs, kind, x.0);
      if x in listing {
        RelativeOfJoin(Entities(kind), x.0);
        assert (EntityRef(kind, x.0), x.1) in pairs;
      }
    }
    SortRecovers(PathLess, out, listing);
  }

  /** The names that lie under `prefix`, relative to it; the others are dropped. */
  method MadeRelative(pairs: seq<(Text, Object)>, prefix: Text) returns (out: Listed)
    requires DistinctKeys(pairs)
    ensures DistinctKeys(out)
    ensures forall x <- out :: ValidPath(x.0) && (JoinPath(prefix, x.0), x.1) in pairs
    ensures forall y <- pairs :: RelativeTo(y.0, prefix).Some? ==> (RelativeTo(y.0, prefix).value, y.1) in out
  {
    out := [];
    for i := 0 to |pairs|
      invariant DistinctKeys(out)
      invariant forall x <- out :: ValidPath(x.0) && exists j :: 0 <= j < i && pairs[j] == (JoinPath(prefix, x.0), x.1)
      invariant forall j :: 0 <= j < i ==> RelativeTo(pairs[j].0, prefix).Some? ==>
        (RelativeTo(pairs[j].0, prefix).value, pairs[j].1) in out
    {
      var name := RelativeTo(pairs[i].0, prefix);
      if name.Some? {
        JoinOfRelative(pairs[i].0, prefix);
        forall k | 0 <= k < |out| ensures out[k].0 != name.value {
          assert out[k] in out;
          var j :| 0 <= j < i && pairs[j] == (JoinPath(prefix, out[k].0), out[k].1);
        }
        out := out + [(name.value, pairs[i].1)];
      }
    }
  }

  /** `source_entries`: one atomic listing of the prefix, made relative, sorted by path. */
  method SourceEntries(store: SharedStore, kind: Text) returns (out: Listed)
    modifies store, store.memory
    ensures store.Now() == Meet(old(store.Now()), old(store.moves)) && store.moves == Later(old(store.moves))
    ensures store.seen == old(store.seen) + [store.Now()] && store.landed == old(store.landed)
    ensures out == Index.ListingOf(Source(store.memory.refs, kind))
  {
    var pairs := store.Prefixed(Entities(kind));
    TextTotal();
    out := MadeRelative(pairs, Entities(kind));
    SortedListing(store.memory.refs, kind, pairs, out);
    out := Sort(PathLess, out);
  }

  // ---- publishing and deleting ----

  /** The accesses `seen` are a whole run of `op` that ends in `o`. */
  ghost predicate Ran(op: Operation, seen: seq<Access>, o: Outcome)
    requires op.name != []
  {
    seen != [] && Follow(op, seen) == Done(o) && !Follow(op, seen[..|seen| - 1]).Done?
  }

  lemma SettledRun(op: Operation, t: seq<Access>, a: Access)
    requires op.name != [] && Follow(op, t) == AtRef
    requires Resolve(op, Read(a.refs, Reference(op)), a.stamp).Settled?
    ensures Ran(op, t + [a], Resolve(op, Read(a.refs, Reference(op)), a.stamp).outcome)
    ensures Landings(op, t + [a]) == []
  {
    FollowOn(op, t, a);
    LandingsOn(op, t, a);
    assert (t + [a])[..|t + [a]| - 1] == t;
  }

  lemma FirstReads(op: Operation, t: seq<Access>, a: Access, b: Access, r: Resolved)
    requires op.name != [] && Follow(op, t) == AtRef
    requires Resolve(op, Read(a.refs, Reference(op)), a.stamp) == Ready(r)
    ensures Follow(op, t + [a, b]) == AtSource(r, Read(b.refs, IndexRef(op.kind)))
  {
    FollowOn(op, t, a);
    FollowOn(op, t + [a], b);
    assert t + [a] + [b] == t + [a, b];
  }

  lemma LastRead(op: Operation, t: seq<Access>, c: Access)
    requires op.name != [] && Follow(op, t).AtSource?
    ensures var r, index, source := Follow(op, t).resolved, Follow(op, t).index, Source(c.refs, op.kind);
      if Batch(op, r, index, source) == [] then Ran(op, t + [c], Success(op, r.commit)) && Landings(op, t + [c]) == []
      else Follow(op, t + [c]) == AtApply(r, index, source)
  {
    FollowOn(op, t, c);
    LandingsOn(op, t, c);
    assert (t + [c])[..|t + [c]| - 1] == t;
  }

  /** The three reads of an attempt, when there turns out to be something to do. */
  lemma ReadingRun(op: Operation, t: seq<Access>, a: Access, b: Access, c: Access, r: Resolved)
    requires op.name != [] && Follow(op, t) == AtRef
    requires Resolve(op, Read(a.refs, Reference(op)), a.stamp) == Ready(r)
    ensures var index, source := Read(b.refs, IndexRef(op.kind)), Source(c.refs, op.kind);
      if Batch(op, r, index, source) == [] then
        Ran(op, t + [a, b, c], Success(op, r.commit)) && Landings(op, t + [a, b, c]) == []
      else Follow(op, t + [a, b, c]) == AtApply(r, index, source)
  {
    FirstReads(op, t, a, b, r);
    Assoc(t, [a, b], [c]);
    assert [a, b] + [c] == [a, b, c];
    LastRead(op, t + [a, b], c);
  }

  lemma AppliedRun(op: Operation, t: seq<Access>, d: Access)
    requires op.name != [] && Follow(op, t).AtApply?
    ensures var p := Follow(op, t);
      var batch := Batch(op, p.resolved, p.index, p.source);
      match ApplyBatch(d.refs, batch)
      case Ok(after) =>
        && Ran(op, t + [d], Success(op, p.resolved.commit))
        && Landings(op, t + [d]) == [Landing(d.refs, batch)] && Left(op, t + [d]) == after
      case Err(race) =>
        && Landings(op, t + [d]) == [] && Left(op, t + [d]) == d.refs
        && if Retries(op) then Follow(op, t + [d]) == AtRef else Ran(op, t + [d], Failed(Lost(race)))
  {
    FollowOn(op, t, d);
    LandingsOn(op, t, d);
    assert (t + [d])[..|t + [d]| - 1] == t;
  }

  /** After the accesses `seen` the next is to apply `edits`, for `r`. */
  ghost predicate Pending(op: Operation, seen: seq<Access>, r: Resolved, edits: seq<RefEdit>)
    requires op.name != []
  {
    && Follow(op, seen).AtApply? && Follow(op, seen).resolved == r
    && edits == Batch(op, r, Follow(op, seen).index, Follow(op, seen).source)
  }

  lemma QuietBatch(op: Operation, a: Access, b: Access, c: Access)
    requires ValidSegment(op.kind) && ValidPath(op.name)
    requires Resolve(op, Read(a.refs, Reference(op)), a.stamp).Ready?
    requires a.refs == b.refs == c.refs
    ensures ApplyBatch(c.refs, Batch(op, Resolve(op, Read(a.refs, Reference(op)), a.stamp).resolved,
                                     Read(b.refs, IndexRef(op.kind)), Source(c.refs, op.kind))).Ok?
  {
    FreshBatch(op, a.refs, a.stamp);
  }

  lemma GatheredRun(op: Operation, t: seq<Access>, a: Access, b: Access, c: Access, edits: seq<RefEdit>)
    requires ValidSegment(op.kind) && ValidPath(op.name) && Follow(op, t) == AtRef
    requires Resolve(op, Read(a.refs, Reference(op)), a.stamp).Ready?
    requires edits == Batch(op, Resolve(op, Read(a.refs, Reference(op)), a.stamp).resolved,
                            Read(b.refs, IndexRef(op.kind)), Source(c.refs, op.kind))
    ensures var r := Resolve(op, Read(a.refs, Reference(op)), a.stamp).resolved;
      if edits == [] then Ran(op, t + [a, b, c], Success(op, r.commit)) && Landings(op, t + [a, b, c]) == []
      else Pending(op, t + [a, b, c], r, edits)
    ensures a.refs == b.refs == c.refs ==> ApplyBatch(c.refs, edits).Ok?
  {
    ReadingRun(op, t, a, b, c, Resolve(op, Read(a.refs, Reference(op)), a.stamp).resolved);
    if a.refs == b.refs == c.refs { QuietBatch(op, a, b, c); }
  }

  datatype Gathered = Ended(outcome: Outcome) | Batched(resolved: Resolved, edits: seq<RefEdit>)

  /** The entity edit, and the index edit from one read of the index ref and one of the source. */
  method Assemble(store: SharedStore, op: Operation, r: Resolved)
    returns (edits: seq<RefEdit>, ghost b: Access, ghost c: Access)
    requires ValidPath(op.name)
    modifies store, store.memory
    ensures store.seen == old(store.seen) + [b, c] && store.landed == old(store.landed)
    ensures edits == Batch(op, r, Read(b.refs, IndexRef(op.kind)), Source(c.refs, op.kind))
    ensures b == Meet(old(store.Now()), old(store.moves)) && c == Meet(b, Later(old(store.moves)))
    ensures store.Now() == c && store.moves == Later(Later(old(store.moves)))
  {
    var index := store.ReadRef(IndexRef(op.kind));
    b := store.Now();
    var next := SourceEntries(store, op.kind);
    c := store.Now();
    next := Index.Upsert(next, op.name, r.commit, Source(c.refs, op.kind));
    Assoc(old(store.seen), [b], [c]);
    edits := Opt(r.edit) + Opt(Index.Edit(IndexRef(op.kind), index, next));
  }

  /** The reads of one attempt, each an access of its own, and the batch they make. */
  method Gather(store: SharedStore, op: Operation, ghost t: seq<Access>) returns (g: Gathered, ghost did: seq<Access>)
    requires ValidSegment(op.kind) && ValidPath(op.name) && Follow(op, t) == AtRef
    modifies store, store.memory
    ensures store.seen == old(store.seen) + did && 1 <= |did| <= 3 && store.landed == old(store.landed)
    ensures Served(old(store.Now()), old(store.moves), did, store.moves)
    ensures store.Now() == Last(old(store.Now()), did)
    ensures g.Ended? ==> Ran(op, t + did, g.outcome) && Landings(op, t + did) == []
    ensures g.Batched? ==> Pending(op, t + did, g.resolved, g.edits)
    ensures g.Batched? && old(store.moves) == [] ==> ApplyBatch(store.memory.refs, g.edits).Ok?
  {
    hide Served, Batch, Resolve, Follow, Ran, Landings, Pending, ApplyBatch;
    ghost var start, queued := store.Now(), store.moves;
    var current := store.ReadRef(Reference(op));
    ghost var a := store.Now();
    var attempt := Resolve(op, current, store.clock);
    ServedFirst(start, queued);
    if attempt.Settled? {
      SettledRun(op, t, a);
      return Ended(attempt.outcome), [a];
    }
    var edits, b, c := Assemble(store, op, attempt.resolved);
    ServedTwice(start, queued, [a], Later(queued), b, c);
    GatheredRun(op, t, a, b, c, edits);
    did := [a, b, c];
    Assoc(old(store.seen), [a], [b, c]);
    assert [a] + [b, c] == did;
    if edits == [] { return Ended(Success(op, attempt.resolved.commit)), did; }
    return Batched(attempt.resolved, edits), did;
  }

  /** How applying the batch that is pending ends the attempt. */
  lemma PendingApplied(op: Operation, t: seq<Access>, r: Resolved, edits: seq<RefEdit>, d: Access)
    requires op.name != [] && Pending(op, t, r, edits)
    ensures var applied := ApplyBatch(d.refs, edits);
      if applied.Ok? then
        && Ran(op, t + [d], Success(op, r.commit))
        && Landings(op, t + [d]) == [Landing(d.refs, edits)] && Left(op, t + [d]) == applied.value
      else
        && Landings(op, t + [d]) == [] && Left(op, t + [d]) == d.refs
        && (Retries(op) ==> Follow(op, t + [d]) == AtRef)
        && (!Retries(op) ==> Ran(op, t + [d], Failed(Lost(applied.error))))
  {
    hide Follow, Batch, ApplyBatch, Landings, Left, Ran;
    AppliedRun(op, t, d);
  }

  lemma EndedLeft(op: Operation, t: seq<Access>)
    requires op.name != [] && t != [] && Landings(op, t) == []
    ensures Left(op, t) == t[|t| - 1].refs
  {
    hide Landings;
  }

  /** One time around the loop of `publish_document_checked` and of `delete_name`; nothing when a race
      was lost and it is to be tried again, and then the others have written since. */
  method Attempt(store: SharedStore, op: Operation, ghost t: seq<Access>)
    returns (o: Option<Outcome>, ghost did: seq<Access>)
    requires ValidSegment(op.kind) && ValidPath(op.name) && Follow(op, t) == AtRef
    modifies store, store.memory
    ensures store.seen == old(store.seen) + did && 1 <= |did| <= 4
    ensures Served(old(store.Now()), old(store.moves), did, store.moves)
    ensures o.Some? ==> Ran(op, t + did, o.value) && store.memory.refs == Left(op, t + did)
    ensures o.Some? ==> store.landed == old(store.landed) + Landings(op, t + did)
    ensures o == None ==> Retries(op) && Follow(op, t + did) == AtRef && store.landed == old(store.landed)
    ensures o == None ==> store.Now() == Last(old(store.Now()), did) && |store.moves| < |old(store.moves)|
  {
    hide Resolve, Batch, ApplyBatch, Left, Ran, Served, Landings;
    ghost var start, queued := store.Now(), store.moves;
    var gathered, first := Gather(store, op, t);
    did := first;
    if gathered.Ended? {
      EndedLeft(op, t + first);
      return Some(gathered.outcome), did;
    }
    ghost var last, left := Meet(store.Now(), store.moves), store.moves;
    var applied := store.Apply(gathered.edits);
    ServedOn(start, queued, first, left, last);
    ServedLater(start, queued, first, left, last);
    PendingApplied(op, t + first, gathered.resolved, gathered.edits, last);
    Assoc(t, first, [last]);
    Assoc(old(store.seen), first, [last]);
    did := first + [last];
    if applied.Ok? { return Some(Success(op, gathered.resolved.commit)), did; }
    if !Retries(op) { return Some(Failed(Lost(applied.error))), did; }
    return None, did;
  }

  /** The run a publication or deletion makes against the shared store is a run of the protocol machine,
      access for access, and it goes around again only when the others have written since. */
  method Perform(store: SharedStore, op: Operation) returns (o: Outcome, ghost did: seq<Access>)
    requires ValidSegment(op.kind) && ValidPath(op.name)
    modifies store, store.memory
    ensures store.seen == old(store.seen) + did && Ran(op, did, o) && store.memory.refs == Left(op, did)
    ensures store.landed == old(store.landed) + Landings(op, did)
    ensures Served(old(store.Now()), old(store.moves), did, store.moves)
    ensures |did| <= if Retries(op) then 4 * (|old(store.moves)| + 1) else 4
  {
    did := [];
    while true
      invariant store.seen == old(store.seen) + did && Follow(op, did) == AtRef && store.landed == old(store.landed)
      invariant Served(old(store.Now()), old(store.moves), did, store.moves)
      invariant store.Now() == Last(old(store.Now()), did)
      invariant |did| + 4 * |store.moves| <= 4 * |old(store.moves)|
      invariant !Retries(op) ==> did == []
      decreases |store.moves|
    {
      ghost var left := store.moves;
      var tried, more := Attempt(store, op, did);
      ServedAppend(old(store.Now()), old(store.moves), did, left, more, store.moves);
      Assoc(old(store.seen), did, more);
      did := did + more;
      if tried.Some? { return tried.value, did; }
    }
  }
}
