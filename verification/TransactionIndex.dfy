/** Where a transaction that others write around leaves an index (`git-store/src/transaction.rs`). It reads
    a kind's listing before its index ref, the other way round from a publication, so nothing notices a
    write in between. */
module TransactionIndex {
  import opened Wrappers
  import opened Order
  import opened Objects
  import opened RefStore
  import opened SharedStore
  import opened Names
  import opened IndexCodec
  import opened Layout
  import opened Tombstones
  import opened Kind
  import opened KindAlone
  import opened Transaction
  import Index
  import Messages

  // ---- the entities ----

  /** The deltas of one kind that come with an edit: an operation that found its document there already
      has a delta and no edit. */
  function Moves(staged: seq<Staged>, steps: seq<Step>, kind: Text): Index.Listed
    requires |steps| <= |staged|
  {
    if steps == [] then []
    else
      var n := |steps| - 1;
      Moves(staged, steps[..n], kind) +
        if staged[n].kind == kind && steps[n].commit.Some? && steps[n].edit.Some?
        then [(staged[n].name, steps[n].commit.value)] else []
  }

  /** Wherever they land, the entity edits make exactly the moves, and no index moves. */
  lemma {:induction false} EntitiesMoved(before: Refs, staged: seq<Staged>, message: Text, did: seq<Access>,
                                         steps: seq<Step>, k: Text)
    requires AllValid(staged) && |steps| <= |staged| && |steps| <= |did|
    requires StagedAgainst(staged, message, did, steps) && ValidSegment(k)
    ensures var after := Publish(before, EntityEdits(steps));
      Source(after, k) == Upserted(Source(before, k), Moves(staged, steps, k))
      && Read(after, IndexRef(k)) == Read(before, IndexRef(k))
    decreases |steps|
  {
    if steps != [] {
      var n := |steps| - 1;
      var s, step := staged[n], steps[n];
      StagedIs(staged, message, did, steps, n);
      EntitiesMoved(before, staged, message, did, steps[..n], k);
      PublishOpt(before, EntityEdits(steps[..n]), step.edit);
      StagedFor(s, message, Read(did[n].refs, s.Target()), did[n].stamp);
      if step.edit.Some? {
        EntityWrite(Publish(before, EntityEdits(steps[..n])), DeleteName(s.kind, s.name), step.commit.value,
                    step.edit.value, k);
      }
      if step.edit.Some? && s.kind == k {
        UpsertedSnoc(Source(before, k), Moves(staged, steps[..n], k), (s.name, step.commit.value));
      } else {
        assert Moves(staged, steps, k) == Moves(staged, steps[..n], k);
      }
    }
  }

  /** What a landed transaction leaves of a kind: its entities with the moves made, and at its index what
      its own two reads made, or nothing new. */
  lemma LandedLeaves(before: Refs, staged: seq<Staged>, message: Text, t: Trace, k: Text)
    requires AllValid(staged) && Prepared(staged, message, t) && ValidSegment(k)
    ensures var after := Publish(before, WholeBatch(staged, t));
      && Source(after, k) == Upserted(Source(before, k), Moves(staged, t.steps, k))
      && (k !in t.kinds ==> Read(after, IndexRef(k)) == Read(before, IndexRef(k)))
      && forall i :: 0 <= i < |t.kinds| && t.kinds[i] == k ==>
           Read(after, IndexRef(k)) == IndexLeft(before, staged, t.steps, k, t.indexing[2 * i], t.indexing[2 * i + 1])
  {
    hide StepAt, Publish, EntityEdits, IndexEdits;
    var mid := Publish(before, EntityEdits(t.steps));
    EntitiesMoved(before, staged, message, t.staging, t.steps, k);
    PublishAppend(before, EntityEdits(t.steps), IndexEdits(staged, t.steps, t.kinds, t.indexing));
    IndexesLeave(mid, staged, t.steps, t.kinds, t.indexing, k);
  }

  lemma {:induction false} MoveFrom(staged: seq<Staged>, steps: seq<Step>, k: Text, x: (Path, Object)) returns (j: nat)
    requires |steps| <= |staged| && x in Moves(staged, steps, k)
    ensures j < |steps| && staged[j].kind == k && staged[j].name == x.0
    ensures steps[j].edit.Some? && steps[j].commit == Some(x.1)
  {
    var n := |steps| - 1;
    if x in Moves(staged, steps[..n], k) { j := MoveFrom(staged, steps[..n], k, x); } else { j := n; }
  }

  /** A move that lands changes its name: no commit displaces itself. */
  lemma MoveChanges(before: Refs, staged: seq<Staged>, message: Text, t: Trace, k: Text, x: (Path, Object))
    requires AllValid(staged) && Prepared(staged, message, t) && ApplyBatch(before, WholeBatch(staged, t)).Ok?
    requires ValidSegment(k) && x in Moves(staged, t.steps, k)
    ensures x.0 in Source(before, k) ==> Source(before, k)[x.0] != x.1
  {
    var j := MoveFrom(staged, t.steps, k, x);
    var s, e := staged[j], t.steps[j].edit.value;
    StagedIs(staged, message, t.staging, t.steps, j);
    StagedFor(s, message, Read(t.staging[j].refs, s.Target()), t.staging[j].stamp);
    StagedParent(s, message, Read(t.staging[j].refs, s.Target()), t.staging[j].stamp);
    NoFailure(before, WholeBatch(staged, t));
    InEdits(t.steps, j);
    assert e in WholeBatch(staged, t) && Holds(before, e);
    SourceMember(before, k, x.0);
    if e.Update? { ChildAbove(e.target); }
  }

  lemma LastUpserted(m: map<Path, Object>, deltas: Index.Listed)
    ensures if deltas == [] then Upserted(m, deltas) == m
            else var x := deltas[|deltas| - 1]; x.0 in Upserted(m, deltas) && Upserted(m, deltas)[x.0] == x.1
  {
  }

  lemma MovesShow(before: Refs, staged: seq<Staged>, message: Text, t: Trace, k: Text)
    requires AllValid(staged) && Prepared(staged, message, t) && ApplyBatch(before, WholeBatch(staged, t)).Ok?
    requires ValidSegment(k)
    ensures Upserted(Source(before, k), Moves(staged, t.steps, k)) == Source(before, k) <==>
            Moves(staged, t.steps, k) == []
  {
    hide Upserted, Moves, Source, WholeBatch, ApplyBatch;
    var moves := Moves(staged, t.steps, k);
    LastUpserted(Source(before, k), moves);
    if moves != [] { MoveChanges(before, staged, message, t, k, moves[|moves| - 1]); }
  }

  // ---- the index ----

  lemma {:induction false} UpsertedIndexable(m: map<Path, Object>, deltas: Index.Listed)
    requires Index.AllIndexable(m) && forall x <- deltas :: Indexable(x.0)
    ensures Index.AllIndexable(Upserted(m, deltas))
  {
    if deltas != [] {
      assert deltas[|deltas| - 1] in deltas;
      UpsertedIndexable(m, deltas[..|deltas| - 1]);
    }
  }

  lemma {:induction false} DeltaFrom(staged: seq<Staged>, steps: seq<Step>, k: Text, x: (Path, Object)) returns (j: nat)
    requires |steps| <= |staged| && x in Deltas(staged, steps, k)
    ensures j < |steps| && staged[j].kind == k && staged[j].name == x.0 && steps[j].commit == Some(x.1)
  {
    var n := |steps| - 1;
    if x in Deltas(staged, steps[..n], k) { j := DeltaFrom(staged, steps[..n], k, x); } else { j := n; }
  }

  lemma TouchedValid(staged: seq<Staged>, message: Text, t: Trace, k: Text)
    requires AllValid(staged) && Prepared(staged, message, t) && k in t.kinds
    ensures ValidSegment(k)
  {
    var x := Deltas(staged, t.steps, k)[0];
    var j := DeltaFrom(staged, t.steps, k, x);
    assert staged[j].Valid();
  }

  /** Everything a transaction lists or writes for kind `k` can be indexed. */
  ghost predicate FitsIndex(before: Refs, staged: seq<Staged>, b: Access, k: Text) {
    && Index.AllIndexable(Source(before, k)) && Index.AllIndexable(Source(b.refs, k))
    && forall s <- staged :: Indexable(s.name)
  }

  lemma FitAfter(before: Refs, staged: seq<Staged>, steps: seq<Step>, b: Access, k: Text)
    requires |steps| <= |staged| && FitsIndex(before, staged, b, k)
    ensures Index.AllIndexable(Upserted(Source(b.refs, k), Deltas(staged, steps, k)))
    ensures Index.AllIndexable(Upserted(Source(before, k), Moves(staged, steps, k)))
  {
    forall x <- Deltas(staged, steps, k) ensures Indexable(x.0) {
      var j := DeltaFrom(staged, steps, k, x);
      assert staged[j] in staged;
    }
    forall x <- Moves(staged, steps, k) ensures Indexable(x.0) {
      var j := MoveFrom(staged, steps, k, x);
      assert staged[j] in staged;
    }
    UpsertedIndexable(Source(b.refs, k), Deltas(staged, steps, k));
    UpsertedIndexable(Source(before, k), Moves(staged, steps, k));
  }

  function ListedAt(t: Trace, i: nat): Access
    requires |t.indexing| == 2 * |t.kinds| && i < |t.kinds|
  {
    t.indexing[2 * i]
  }

  function IndexedAt(t: Trace, i: nat): Access
    requires |t.indexing| == 2 * |t.kinds| && i < |t.kinds|
  {
    t.indexing[2 * i + 1]
  }

  /** The listing met, with the deltas made: what an index edit of the kind writes. */
  ghost function Written(staged: seq<Staged>, t: Trace, i: nat): map<Path, Object>
    requires |t.steps| <= |staged| && |t.indexing| == 2 * |t.kinds| && i < |t.kinds|
  {
    Upserted(Source(ListedAt(t, i).refs, t.kinds[i]), Deltas(staged, t.steps, t.kinds[i]))
  }

  ghost predicate WritesIndex(staged: seq<Staged>, t: Trace, i: nat)
    requires |t.steps| <= |staged| && |t.indexing| == 2 * |t.kinds| && i < |t.kinds|
  {
    IndexEditOf(staged, t.steps, t.kinds[i], ListedAt(t, i), IndexedAt(t, i)).Some?
  }

  /** The transaction lands at `before`, over an index of `t.kinds[i]` that agrees. */
  ghost predicate LandsOver(before: Refs, staged: seq<Staged>, message: Text, t: Trace, i: nat) {
    && AllValid(staged) && Prepared(staged, message, t) && ApplyBatch(before, WholeBatch(staged, t)).Ok?
    && i < |t.kinds| && Agrees(before, t.kinds[i]) && FitsIndex(before, staged, ListedAt(t, i), t.kinds[i])
  }

  /** The index of the kind agreed when it was read. */
  ghost predicate AgreedAt(t: Trace, i: nat)
    requires |t.indexing| == 2 * |t.kinds| && i < |t.kinds|
  {
    Agrees(IndexedAt(t, i).refs, t.kinds[i]) && Index.AllIndexable(Source(IndexedAt(t, i).refs, t.kinds[i]))
  }

  /** Under any contention, exactly: a transaction that lands over an agreeing index leaves it agreeing if
      and only if the listing it wrote is the entities it left, or it wrote none and moved none. */
  lemma LandedIndex(before: Refs, staged: seq<Staged>, message: Text, t: Trace, i: nat)
    requires LandsOver(before, staged, message, t, i)
    ensures var k, after := t.kinds[i], Publish(before, WholeBatch(staged, t));
      Agrees(after, k) <==>
        if WritesIndex(staged, t, i) then Written(staged, t, i) == Source(after, k) else Moves(staged, t.steps, k) == []
  {
    var k, after := t.kinds[i], Publish(before, WholeBatch(staged, t));
    assert k in t.kinds;
    TouchedValid(staged, message, t, k);
    LandedLeaves(before, staged, message, t, k);
    MovesShow(before, staged, message, t, k);
    FitAfter(before, staged, t.steps, t.indexing[2 * i], k);
    if WritesIndex(staged, t, i) {
      if Written(staged, t, i) != Source(after, k) { Index.IndexesDiffer(Written(staged, t, i), Source(after, k)); }
    } else {
      if Source(before, k) != Source(after, k) { Index.IndexesDiffer(Source(before, k), Source(after, k)); }
    }
  }

  // ---- in terms of what the others wrote ----

  /** The two maps agree at every name outside `names`. */
  ghost predicate SameOff(a: map<Path, Object>, b: map<Path, Object>, names: set<Path>) {
    forall p :: p !in names ==> (p in a <==> p in b) && (p in a && p in b ==> a[p] == b[p])
  }

  function Named(deltas: Index.Listed): set<Path> { set x | x in deltas :: x.0 }

  lemma {:induction false} UpsertedOff(m: map<Path, Object>, deltas: Index.Listed)
    ensures SameOff(Upserted(m, deltas), m, Named(deltas))
  {
    if deltas != [] {
      var front, last := deltas[..|deltas| - 1], deltas[|deltas| - 1];
      UpsertedOff(m, front);
      assert deltas == front + [last];
      assert last in deltas && forall x <- front :: x in deltas;
    }
  }

  lemma DeltasOn(m: map<Path, Object>, staged: seq<Staged>, steps: seq<Step>, step: Step, k: Text)
    requires |steps| < |staged|
    ensures var s := staged[|steps|];
      && Upserted(m, Deltas(staged, steps + [step], k)) ==
         (if s.kind == k && step.commit.Some? then Upserted(m, Deltas(staged, steps, k))[s.name := step.commit.value]
          else Upserted(m, Deltas(staged, steps, k)))
      && Upserted(m, Moves(staged, steps + [step], k)) ==
         (if s.kind == k && step.commit.Some? && step.edit.Some?
          then Upserted(m, Moves(staged, steps, k))[s.name := step.commit.value]
          else Upserted(m, Moves(staged, steps, k)))
  {
    var s := staged[|steps|];
    assert (steps + [step])[..|steps|] == steps;
    if s.kind == k && step.commit.Some? {
      UpsertedSnoc(m, Deltas(staged, steps, k), (s.name, step.commit.value));
      UpsertedSnoc(m, Moves(staged, steps, k), (s.name, step.commit.value));
    } else {
      assert Deltas(staged, steps, k) + [] == Deltas(staged, steps, k);
    }
    assert Moves(staged, steps, k) + [] == Moves(staged, steps, k);
  }

  /** The value `c` stands at `n` once the deltas of kind `k` are made, and once the moves are. */
  ghost predicate Stands(m: map<Path, Object>, staged: seq<Staged>, steps: seq<Step>, k: Text, n: Path, c: Object)
    requires |steps| <= |staged|
  {
    && n in Upserted(m, Deltas(staged, steps, k)) && Upserted(m, Deltas(staged, steps, k))[n] == c
    && n in Upserted(m, Moves(staged, steps, k)) && Upserted(m, Moves(staged, steps, k))[n] == c
  }

  /** No ref named twice, what an operation moves its name to stands. */
  lemma {:induction false} MoveStands(m: map<Path, Object>, staged: seq<Staged>, steps: seq<Step>, k: Text, j: nat)
    requires AllValid(staged) && DistinctTargets(staged) && |steps| <= |staged| && j < |steps|
    requires staged[j].kind == k && steps[j].commit.Some? && steps[j].edit.Some?
    ensures Stands(m, staged, steps, k, staged[j].name, steps[j].commit.value)
    decreases |steps|
  {
    hide Upserted, Deltas, Moves;
    var n := |steps| - 1;
    DeltasOn(m, staged, steps[..n], steps[n], k);
    assert steps == steps[..n] + [steps[n]];
    if j < n {
      assert staged[n].Valid() && staged[j].Valid();
      assert staged[j].Target() != staged[n].Target();
      MoveStands(m, staged, steps[..n], k, j);
    }
  }

  /** Two maps equal at `names` are equal exactly when they are the same off them. */
  lemma SameWhenOff(x: map<Path, Object>, y: map<Path, Object>, b: map<Path, Object>, names: set<Path>)
    requires forall p <- names :: p in x && p in y && x[p] == y[p]
    requires SameOff(y, b, names)
    ensures x == y <==> SameOff(x, b, names)
  {
    if SameOff(x, b, names) {
      forall p ensures p in x <==> p in y ensures p in x && p in y ==> x[p] == y[p] {
        if p !in names { assert p in x <==> p in b; }
      }
    }
  }

  lemma MovedAlike(a: map<Path, Object>, b: map<Path, Object>, staged: seq<Staged>, steps: seq<Step>, k: Text)
    requires AllValid(staged) && DistinctTargets(staged) && |steps| <= |staged|
    ensures Upserted(a, Deltas(staged, steps, k)) == Upserted(b, Moves(staged, steps, k)) <==>
            SameOff(Upserted(a, Deltas(staged, steps, k)), b, Named(Moves(staged, steps, k)))
  {
    hide Upserted, Deltas, Moves, SameOff;
    var x, y := Upserted(a, Deltas(staged, steps, k)), Upserted(b, Moves(staged, steps, k));
    forall p <- Named(Moves(staged, steps, k)) ensures p in x && p in y && x[p] == y[p] {
      var z :| z in Moves(staged, steps, k) && z.0 == p;
      var j := MoveFrom(staged, steps, k, z);
      MoveStands(a, staged, steps, k, j);
      MoveStands(b, staged, steps, k, j);
    }
    UpsertedOff(b, Moves(staged, steps, k));
    SameWhenOff(x, y, b, Named(Moves(staged, steps, k)));
  }

  /** The index read agreed, and is what the batch found: so the entities are those of that moment. */
  lemma UnmovedSinceIndex(before: Refs, staged: seq<Staged>, message: Text, t: Trace, i: nat)
    requires LandsOver(before, staged, message, t, i) && WritesIndex(staged, t, i) && AgreedAt(t, i)
    ensures Source(before, t.kinds[i]) == Source(IndexedAt(t, i).refs, t.kinds[i])
  {
    var k, c := t.kinds[i], t.indexing[2 * i + 1];
    var e := IndexEditOf(staged, t.steps, k, t.indexing[2 * i], c).value;
    EditShape(k, Read(c.refs, IndexRef(k)), Written(staged, t, i));
    IndexEditIn(staged, t.steps, t.kinds, t.indexing, i);
    NoFailure(before, WholeBatch(staged, t));
    assert e in WholeBatch(staged, t) && Holds(before, e);
    if Source(before, k) != Source(c.refs, k) { Index.IndexesDiffer(Source(before, k), Source(c.refs, k)); }
  }

  lemma {:induction false} IndexEditIn(staged: seq<Staged>, steps: seq<Step>, kinds: seq<Text>, did: seq<Access>,
                                       i: nat)
    requires |steps| <= |staged| && |did| == 2 * |kinds| && i < |kinds|
    ensures var e := IndexEditOf(staged, steps, kinds[i], did[2 * i], did[2 * i + 1]);
      e.Some? ==> e.value in IndexEdits(staged, steps, kinds, did)
    decreases |kinds|
  {
    hide IndexEditOf;
    var n := |kinds| - 1;
    if i < n {
      var front, did0 := kinds[..n], did[..2 * n];
      assert front[i] == kinds[i] && did0[2 * i] == did[2 * i] && did0[2 * i + 1] == did[2 * i + 1];
      IndexEditIn(staged, steps, kinds[..n], did[..2 * n], i);
    }
  }

  /** When a transaction keeps an agreeing index, in terms of what the others wrote: no ref named twice,
      and the index agreeing when it was read and when the batch landed, it agrees afterwards if and only
      if the listing read first, with the deltas made, is the entities of the moment the index was read, off
      the names the transaction itself moved. */
  lemma AgreementExactly(before: Refs, staged: seq<Staged>, message: Text, t: Trace, i: nat)
    requires LandsOver(before, staged, message, t, i) && DistinctTargets(staged)
    requires WritesIndex(staged, t, i) && AgreedAt(t, i)
    ensures var k := t.kinds[i];
      Agrees(Publish(before, WholeBatch(staged, t)), k) <==>
        SameOff(Written(staged, t, i), Source(IndexedAt(t, i).refs, k), Named(Moves(staged, t.steps, k)))
  {
    var k := t.kinds[i];
    assert k in t.kinds;
    TouchedValid(staged, message, t, k);
    UnmovedSinceIndex(before, staged, message, t, i);
    LandedIndex(before, staged, message, t, i);
    LandedLeaves(before, staged, message, t, k);
    MovedAlike(Source(t.indexing[2 * i].refs, k), Source(before, k), staged, t.steps, k);
  }

  lemma OffThrough(a: map<Path, Object>, b: map<Path, Object>, c: map<Path, Object>, names: set<Path>)
    requires SameOff(a, b, names)
    ensures SameOff(a, c, names) <==> SameOff(b, c, names)
  {
  }

  /** When every operation of the kind moves its ref, that is: if and only if nobody changed another name of
      the kind between the reading of the listing and the reading of the index. */
  lemma StaleWhenListingMoved(before: Refs, staged: seq<Staged>, message: Text, t: Trace, i: nat)
    requires LandsOver(before, staged, message, t, i) && DistinctTargets(staged)
    requires WritesIndex(staged, t, i) && AgreedAt(t, i)
    requires Moves(staged, t.steps, t.kinds[i]) == Deltas(staged, t.steps, t.kinds[i])
    ensures var k := t.kinds[i];
      Agrees(Publish(before, WholeBatch(staged, t)), k) <==>
        SameOff(Source(ListedAt(t, i).refs, k), Source(IndexedAt(t, i).refs, k), Named(Deltas(staged, t.steps, k)))
  {
    hide Upserted, Deltas, Moves, Source, Agrees, SameOff, Publish, WholeBatch;
    var k, b, c := t.kinds[i], t.indexing[2 * i], t.indexing[2 * i + 1];
    AgreementExactly(before, staged, message, t, i);
    UpsertedOff(Source(b.refs, k), Deltas(staged, t.steps, k));
    OffThrough(Written(staged, t, i), Source(b.refs, k), Source(c.refs, k), Named(Deltas(staged, t.steps, k)));
  }

  // ---- the stale run ----

  /** One publication at an unused name, its listing met at `early` and its index ref at `late`. */
  ghost function OnePut(kind: Text, name: Path, tree: Object, early: Refs, late: Refs): Trace
    requires name != []
  {
    var c := Commit(tree, [], [], 0);
    Trace([Step(Some(c), Some(Create(EntityRef(kind, name), c)))], [kind], [Access(early, 0)],
          [Access(early, 0), Access(late, 0)])
  }

  function Putting(kind: Text, name: Path, tree: Object): seq<Staged> { [Put(kind, name, tree, Absent)] }

  lemma OnePutDeltas(kind: Text, name: Path, tree: Object, early: Refs, late: Refs, k: Text)
    requires name != []
    ensures var staged, t := Putting(kind, name, tree), OnePut(kind, name, tree, early, late);
      Deltas(staged, t.steps, k) == (if k == kind then [(name, Commit(tree, [], [], 0))] else [])
      && Moves(staged, t.steps, k) == Deltas(staged, t.steps, k)
  {
    var t := OnePut(kind, name, tree, early, late);
    assert t.steps[..0] == [];
  }

  lemma OnePutPrepared(kind: Text, name: Path, tree: Object, early: Refs, late: Refs)
    requires ValidSegment(kind) && ValidPath(name) && IsDocument(tree) && EntityRef(kind, name) !in early
    ensures AllValid(Putting(kind, name, tree)) && DistinctTargets(Putting(kind, name, tree))
    ensures Prepared(Putting(kind, name, tree), [], OnePut(kind, name, tree, early, late))
  {
    var staged, t := Putting(kind, name, tree), OnePut(kind, name, tree, early, late);
    Messages.PlainAccepted([]);
    assert StepAt(staged, [], t.staging, 0, t.steps[0]);
    forall k: Text { OnePutDeltas(kind, name, tree, early, late, k); }
  }

  lemma OnePutBatch(kind: Text, name: Path, tree: Object, early: Refs, late: Refs)
    requires name != []
    ensures var staged, t := Putting(kind, name, tree), OnePut(kind, name, tree, early, late);
      && IndexEditOf(staged, t.steps, kind, t.indexing[0], t.indexing[1]) ==
         IndexEdit(kind, Read(late, IndexRef(kind)), Source(early, kind)[name := Commit(tree, [], [], 0)])
      && WholeBatch(staged, t) == Opt(t.steps[0].edit) +
           Opt(IndexEdit(kind, Read(late, IndexRef(kind)), Source(early, kind)[name := Commit(tree, [], [], 0)]))
  {
    var staged, t := Putting(kind, name, tree), OnePut(kind, name, tree, early, late);
    OnePutDeltas(kind, name, tree, early, late, kind);
    UpsertedSnoc(Source(early, kind), [], (name, Commit(tree, [], [], 0)));
    assert EntityEdits(t.steps) == Opt(t.steps[0].edit) by { assert t.steps[..0] == []; }
    IndexEditsOn(staged, t.steps, [], [], kind, t.indexing[0], t.indexing[1]);
  }

  lemma OnePutLands(kind: Text, name: Path, tree: Object, early: Refs, late: Refs)
    requires ValidSegment(kind) && Indexable(name) && EntityRef(kind, name) !in late && Agrees(late, kind)
    requires Index.AllIndexable(Source(early, kind)) && Index.AllIndexable(Source(late, kind))
    ensures var staged, t := Putting(kind, name, tree), OnePut(kind, name, tree, early, late);
      WritesIndex(staged, t, 0) && ApplyBatch(late, WholeBatch(staged, t)).Ok?
  {
    hide WholeBatch, Written, Deltas, Upserted, ApplyBatch, Index.IndexValue, Source, IndexEdit;
    var staged, t := Putting(kind, name, tree), OnePut(kind, name, tree, early, late);
    var written := Source(early, kind)[name := Commit(tree, [], [], 0)];
    OnePutBatch(kind, name, tree, early, late);
    SourceMember(late, kind, name);
    Index.IndexesDiffer(written, Source(late, kind));
    FreshIndexEdit(kind, late, written);
    BothHold(late, t.steps[0].edit, IndexEdit(kind, Read(late, IndexRef(kind)), written));
  }

  lemma FreshIndexEdit(kind: Text, refs: Refs, m: map<Path, Object>)
    requires Index.IndexValue(m) != Read(refs, IndexRef(kind))
    ensures var e := IndexEdit(kind, Read(refs, IndexRef(kind)), m); e.Some? && Holds(refs, e.value)
  {
    EditShape(kind, Read(refs, IndexRef(kind)), m);
  }

  /** A transaction publishing at an unused name, between whose two reads the entities of the kind change
      elsewhere, lands and leaves a stale index, although the index agreed at each. */
  lemma OnePutGoesStale(kind: Text, name: Path, tree: Object, early: Refs, late: Refs)
    requires ValidSegment(kind) && Indexable(name) && IsDocument(tree) && Agrees(late, kind)
    requires Index.AllIndexable(Source(early, kind)) && Index.AllIndexable(Source(late, kind))
    requires name !in Source(early, kind) && name !in Source(late, kind) && Source(early, kind) != Source(late, kind)
    ensures var staged, t := Putting(kind, name, tree), OnePut(kind, name, tree, early, late);
      && AllValid(staged) && Prepared(staged, [], t) && ApplyBatch(late, WholeBatch(staged, t)).Ok?
      && !Agrees(Publish(late, WholeBatch(staged, t)), kind)
  {
    hide WholeBatch, Written, WritesIndex, Publish, ApplyBatch, Prepared, Source, Agrees;
    var staged, t := Putting(kind, name, tree), OnePut(kind, name, tree, early, late);
    SourceMember(early, kind, name);
    SourceMember(late, kind, name);
    OnePutPrepared(kind, name, tree, early, late);
    OnePutLands(kind, name, tree, early, late);
    OnePutDeltas(kind, name, tree, early, late, kind);
    StaleWhenListingMoved(late, staged, [], t, 0);
    SameOffOne(Source(early, kind), Source(late, kind), name, Named(Deltas(staged, t.steps, kind)));
  }

  lemma SameOffOne(a: map<Path, Object>, b: map<Path, Object>, name: Path, names: set<Path>)
    requires name !in a && name !in b && a != b && names <= {name}
    ensures !SameOff(a, b, names)
  {
    if SameOff(a, b, names) {
      forall p ensures p in a <==> p in b ensures p in a && p in b ==> a[p] == b[p] {
        if p != name { assert p !in names; }
      }
      assert false;
    }
  }

  /** The stale run: a store holds one document at `other`; a transaction publishing at `name` reads the
      listing, somebody moves `other` on and the index with it, the transaction reads the index ref and
      lands, and the index it leaves still names the displaced commit at `other`. */
  lemma TransactionGoesStale(kind: Text, name: Path, tree: Object, other: Path, first: Object, second: Object, n: nat)
    requires ValidSegment(kind) && Indexable(name) && Indexable(other) && name != other && n >= 4
    requires IsDocument(tree) && IsDocument(first) && IsDocument(second) && first != second
    ensures var early := Holding(kind, other, Rooted(first));
      var late := Alone(early, Publisher(kind, other, second), 0, n).0;
      var staged, t := Putting(kind, name, tree), OnePut(kind, name, tree, early, late);
      && Agrees(early, kind) && Agrees(late, kind)
      && AllValid(staged) && Prepared(staged, [], t) && ApplyBatch(late, WholeBatch(staged, t)).Ok?
      && !Agrees(Publish(late, WholeBatch(staged, t)), kind)
  {
    hide Alone, WholeBatch, Publish, Prepared, ApplyBatch;
    var early := Holding(kind, other, Rooted(first));
    HoldingAgrees(kind, other, Rooted(first));
    MovesOn(early, kind, other, second, None, Rooted(first), n);
    OnePutGoesStale(kind, name, tree, early, Alone(early, Publisher(kind, other, second), 0, n).0);
  }
}
