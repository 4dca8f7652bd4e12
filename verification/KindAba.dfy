/** When a commit can come back to a name it held before (`git-store/src/kind.rs`). A publication given an
    explicit parent from elsewhere can put it there, and then neither fast-forward nor the argument for
    index agreement holds. What still holds of the index, in every run, is an exact condition on each
    batch that lands. */
module KindAba {
  import opened Wrappers
  import opened Order
  import opened Objects
  import opened RefStore
  import opened Names
  import opened Layout
  import opened IndexCodec
  import opened Tombstones
  import opened Kind
  import opened KindRuns
  import opened KindDeletes
  import opened KindAlone
  import Index
  import Messages

  // ---- agreement, whatever lands ----

  /** The batch wrote the entities it left; or it wrote no index, and left the entities as they were. */
  ghost predicate ListsWhatItLeaves(refs: Refs, after: Refs, op: Operation, r: Resolved, index: Option<Object>,
                                    source: map<Path, Object>)
  {
    if IndexEdit(op.kind, index, source[op.name := r.commit]).Some?
    then source[op.name := r.commit] == Source(after, op.kind)
    else Source(after, op.kind) == Source(refs, op.kind)
  }

  lemma LandingExactly(refs: Refs, op: Operation, r: Resolved, index: Option<Object>, source: map<Path, Object>)
    requires ValidSegment(op.kind) && Indexable(op.name) && Proper(op, r) && Agrees(refs, op.kind)
    requires Index.AllIndexable(source) && Index.AllIndexable(Source(refs, op.kind))
    requires ApplyBatch(refs, Batch(op, r, index, source)).Ok?
    ensures var after := ApplyBatch(refs, Batch(op, r, index, source)).value;
      Agrees(after, op.kind) <==> ListsWhatItLeaves(refs, after, op, r, index, source)
  {
    hide Index.IndexValue, Proper;
    var after := ApplyBatch(refs, Batch(op, r, index, source)).value;
    var next := source[op.name := r.commit];
    assert r.edit.Some? ==> MovesEntity(op, r.commit, r.edit.value) by { ProperMoves(op, r); }
    BatchEffect(refs, op, r, index, source, op.kind);
    if next != Source(after, op.kind) { Index.IndexesDiffer(next, Source(after, op.kind)); }
    if Source(refs, op.kind) != Source(after, op.kind) {
      Index.IndexesDiffer(Source(refs, op.kind), Source(after, op.kind));
    }
  }

  lemma ProperMoves(op: Operation, r: Resolved)
    requires op.name != [] && Proper(op, r)
    ensures r.edit.Some? ==> MovesEntity(op, r.commit, r.edit.value)
  {
  }

  /** Every name in the refs, and every listing a client holds, can be indexed. */
  ghost predicate AllFit(s: State) {
    && AllProper(s)
    && (forall k: Text :: ValidSegment(k) ==> Index.AllIndexable(Source(s.refs, k)))
    && forall i :: 0 <= i < |s.clients| && s.clients[i].phase.AtApply? ==> Index.AllIndexable(s.clients[i].phase.source)
  }

  lemma LandedFits(s: State, l: Label, k: Text)
    requires AllFit(s) && Lands(s, l) && ValidSegment(k)
    ensures Index.AllIndexable(Source(Next(s, l).refs, k))
  {
    var c := s.clients[l.client];
    assert c in s.clients;
    BatchEffect(s.refs, c.op, c.phase.resolved, c.phase.index, c.phase.source, k);
  }

  lemma NextFits(s: State, l: Label)
    requires AllFit(s)
    ensures AllFit(Next(s, l))
  {
    var t := Next(s, l);
    NextProper(s, l);
    forall k: Text | ValidSegment(k) ensures Index.AllIndexable(Source(t.refs, k)) {
      if Lands(s, l) { LandedFits(s, l, k); } else { OnlyLandingsMove(s, l); }
    }
    forall i | 0 <= i < |t.clients| && t.clients[i].phase.AtApply?
      ensures Index.AllIndexable(t.clients[i].phase.source)
    {
      if i == l.client { HeldListing(s.refs, s.clients[i], l.stamp); }
    }
  }

  lemma HeldListing(refs: Refs, c: Client, stamp: int)
    requires c.op.name != []
    ensures var p := Advance(refs, c, stamp).1; p.AtApply? ==> p.source == Source(refs, c.op.kind) || p == c.phase
  {
    hide Resolve, Batch, ApplyBatch;
  }

  lemma {:induction false} ExecFits(s: State, labels: seq<Label>)
    requires AllFit(s)
    ensures AllFit(Exec(s, labels))
  {
    if labels != [] {
      ExecFits(s, labels[..|labels| - 1]);
      NextFits(Exec(s, labels[..|labels| - 1]), labels[|labels| - 1]);
    }
  }

  lemma InitialFits(s: State)
    requires Initial(s)
    ensures AllFit(s)
  {
    InitialProper(s);
    forall i | 0 <= i < |s.clients| ensures s.clients[i].phase == AtRef { assert s.clients[i] in s.clients; }
  }

  /** If this step lands a batch of the kind, the batch lists what it leaves. */
  ghost predicate ListsAt(s: State, l: Label, k: Text)
    requires WellFormed(s)
  {
    Lands(s, l) && s.clients[l.client].op.kind == k ==>
      var p := s.clients[l.client].phase;
      ListsWhatItLeaves(s.refs, Next(s, l).refs, s.clients[l.client].op, p.resolved, p.index, p.source)
  }

  ghost predicate AlwaysLists(s: State, labels: seq<Label>, k: Text)
    requires WellFormed(s)
  {
    labels != [] ==>
      && AlwaysLists(s, labels[..|labels| - 1], k)
      && ListsAt(Exec(s, labels[..|labels| - 1]), labels[|labels| - 1], k)
  }

  lemma StepAgreement(s: State, l: Label, k: Text)
    requires AllFit(s) && ValidSegment(k) && Agrees(s.refs, k)
    ensures Agrees(Next(s, l).refs, k) <==> ListsAt(s, l, k)
  {
    hide ListsWhatItLeaves, Batch;
    if Lands(s, l) {
      var c := s.clients[l.client];
      assert c in s.clients;
      if c.op.kind == k {
        LandingExactly(s.refs, c.op, c.phase.resolved, c.phase.index, c.phase.source);
      } else {
        BatchEffect(s.refs, c.op, c.phase.resolved, c.phase.index, c.phase.source, k);
      }
    } else {
      OnlyLandingsMove(s, l);
    }
  }

  /** In every run, explicit parents and all, the index agrees in every state if and only if every batch
      that lands lists the entities it leaves. */
  lemma {:induction false} AgreementInAnyRun(s: State, labels: seq<Label>, k: Text)
    requires Initial(s) && ValidSegment(k) && Agrees(s.refs, k)
    ensures AlwaysAgrees(s, labels, k) <==> AlwaysLists(s, labels, k)
  {
    if labels != [] {
      var front := labels[..|labels| - 1];
      AgreementInAnyRun(s, front, k);
      if AlwaysAgrees(s, front, k) {
        InitialFits(s);
        ExecFits(s, front);
        StepAgreement(Exec(s, front), labels[|labels| - 1], k);
      }
    }
  }

  // ---- off the walk ----

  /** A publication given a parent that does not reach what it displaces takes its name off the walk: the
      commit that was there is no longer an ancestor of the tip. */
  lemma ParentLeavesWalk(kind: Text, name: Path, first: Object, tree: Object, parent: Object, n: nat)
    requires ValidSegment(kind) && Indexable(name) && IsDocument(tree) && first != tree && n >= 4
    requires parent.Commit? && !Reaches(parent, Rooted(first))
    ensures var s := State(Holding(kind, name, Rooted(first)), [Offering(kind, name, tree, Some(parent))]);
      && Initial(s)
      && !Forward(Source(s.refs, kind), Source(Exec(s, Repeat(Label(0, 0, false), n)).refs, kind))
  {
    hide Alone, Resolve, Exec, Source, FirstParents;
    var s := State(Holding(kind, name, Rooted(first)), [Offering(kind, name, tree, Some(parent))]);
    HoldingAgrees(kind, name, Rooted(first));
    ExecAlone(s, Label(0, 0, false), n);
    MovesOn(s.refs, kind, name, tree, Some(parent), Rooted(first), n);
    OffWalk(Commit(tree, [parent], [], 0), Rooted(first));
  }

  lemma OffWalk(c: Object, past: Object)
    requires c.Commit? && c.parents != [] && c != past && !Reaches(c.parents[0], past)
    ensures !Reaches(c, past)
  {
    assert FirstParents(c) == [c] + FirstParents(c.parents[0]);
  }

  // ---- and back: the index goes stale although every landed batch moves an entity ----

  lemma {:induction false} NeverAppend(s: State, a: seq<Label>, b: seq<Label>, k: Text)
    requires WellFormed(s) && NeverLandsWithoutEntity(s, a, k) && NeverLandsWithoutEntity(Exec(s, a), b, k)
    ensures NeverLandsWithoutEntity(s, a + b, k)
  {
    if b == [] {
      assert a + b == a;
    } else {
      var n := |b| - 1;
      NeverAppend(s, a, b[..n], k);
      ExecAppend(s, a, b[..n]);
      assert (a + b)[..|a + b| - 1] == a + b[..n];
    }
  }

  /** Within `n` steps this client does not go around its loop again, and what it has resolved, or will, moves
      its ref. */
  ghost predicate Moving(refs: Refs, c: Client, stamp: int, n: nat)
    requires c.op.name != []
  {
    match c.phase
    case AtRef =>
      var a := Resolve(c.op, Read(refs, Reference(c.op)), stamp); n <= 4 && a.Ready? && a.resolved.edit.Some?
    case Done(_) => n == 0
    case _ => n <= Rank(c.phase) && c.phase.resolved.edit.Some?
  }

  lemma MovingOn(refs: Refs, c: Client, stamp: int, n: nat)
    requires c.op.name != [] && Moving(refs, c, stamp, n) && n > 0
    ensures n > 1 ==> Moving(Turn(refs, c, stamp).0, Turn(refs, c, stamp).1, stamp, n - 1)
  {
    if c.phase.AtSource? { assert Batch(c.op, c.phase.resolved, c.phase.index, Source(refs, c.op.kind)) != []; }
  }

  lemma OneLabel(s: State, l: Label, k: Text)
    requires WellFormed(s)
    ensures Exec(s, [l]) == Next(s, l)
    ensures NeverLandsWithoutEntity(s, [l], k) <==> !LandsWithoutEntity(s, l, k)
  {
    assert [l][..|[l]| - 1] == [];
    assert NeverLandsWithoutEntity(s, [], k);
  }

  lemma {:induction false} SoloMoves(s: State, l: Label, n: nat, k: Text)
    requires WellFormed(s) && l.client < |s.clients| && !l.fails && s.clients[l.client].op.name != []
    requires Moving(s.refs, s.clients[l.client], l.stamp, n)
    ensures NeverLandsWithoutEntity(s, Repeat(l, n), k)
    decreases n
  {
    if n > 0 {
      hide Exec, Turn, NeverLandsWithoutEntity;
      OneLabel(s, l, k);
      NextWellFormed(s, l);
      NextAlone(s, l);
      MovingOn(s.refs, s.clients[l.client], l.stamp, n);
      if n > 1 { SoloMoves(Next(s, l), l, n - 1, k); }
      NeverAppend(s, [l], Repeat(l, n - 1), k);
      assert Repeat(l, n) == [l] + Repeat(l, n - 1);
    }
  }

  /** One client's stretch of a run: where it leads, and that it lands nothing without an entity. */
  lemma Stretch(s: State, l: Label, n: nat, k: Text, refs: Refs, c: Client)
    requires WellFormed(s) && l.client < |s.clients| && !l.fails && s.clients[l.client].op.name != []
    requires Alone(s.refs, s.clients[l.client], l.stamp, n) == (refs, c)
    requires Moving(s.refs, s.clients[l.client], l.stamp, n)
    ensures Exec(s, Repeat(l, n)) == State(refs, s.clients[l.client := c])
    ensures NeverLandsWithoutEntity(s, Repeat(l, n), k)
  {
    hide Moving;
    ExecAlone(s, l, n);
    SoloMoves(s, l, n, k);
  }

  lemma TwoReads(refs: Refs, c: Client, r: Resolved, n: nat)
    requires c.op.name != [] && c.phase == AtRef && Resolve(c.op, Read(refs, Reference(c.op)), 0) == Ready(r) && n == 2
    ensures Alone(refs, c, 0, n) == (refs, c.(phase := AtSource(r, Read(refs, IndexRef(c.op.kind)))))
  {
    hide Resolve;
    var first, second := c.(phase := AtIndex(r)), c.(phase := AtSource(r, Read(refs, IndexRef(c.op.kind))));
    assert Turn(refs, c, 0) == (refs, first) && Turn(refs, first, 0) == (refs, second);
    assert Alone(refs, second, 0, n - 2) == (refs, second);
    assert Alone(refs, first, 0, n - 1) == (refs, second);
  }

  lemma OneRead(refs: Refs, c: Client, n: nat)
    requires c.op.name != [] && c.phase.AtSource? && c.phase.resolved.edit.Some? && n == 1
    ensures Alone(refs, c, 0, n) ==
            (refs, c.(phase := AtApply(c.phase.resolved, c.phase.index, Source(refs, c.op.kind))))
  {
    hide Resolve;
    assert Batch(c.op, c.phase.resolved, c.phase.index, Source(refs, c.op.kind)) != [];
  }

  /** A commit for a new name, with a listing that is no longer the entities and the index as it stands. */
  ghost predicate StaleCreation(refs: Refs, op: Operation, r: Resolved, source: map<Path, Object>) {
    && ValidSegment(op.kind) && Indexable(op.name) && Proper(op, r) && r.edit.Some? && r.edit.value.Create?
    && Agrees(refs, op.kind) && Index.AllIndexable(source) && Index.AllIndexable(Source(refs, op.kind))
    && op.name !in Source(refs, op.kind) && op.name !in source && source != Source(refs, op.kind)
  }

  lemma StaleLands(refs: Refs, op: Operation, r: Resolved, source: map<Path, Object>)
    requires StaleCreation(refs, op, r, source)
    ensures IndexEdit(op.kind, Read(refs, IndexRef(op.kind)), source[op.name := r.commit]).Some?
    ensures ApplyBatch(refs, Batch(op, r, Read(refs, IndexRef(op.kind)), source)).Ok?
  {
    hide Index.IndexValue, ApplyBatch;
    var next, index := source[op.name := r.commit], Read(refs, IndexRef(op.kind));
    SourceMember(refs, op.kind, op.name);
    Index.IndexesDiffer(next, Source(refs, op.kind));
    EditShape(op.kind, index, next);
    BothHold(refs, r.edit, IndexEdit(op.kind, index, next));
  }

  lemma StaleListing(a: map<Path, Object>, b: map<Path, Object>, name: Path, c: Object)
    requires a != b && name !in a && name !in b
    ensures a[name := c] != b[name := c]
  {
    assert a[name := c] - {name} == a && b[name := c] - {name} == b;
  }

  /** It lands, and the index it writes is of the old listing. */
  lemma StaleLanding(refs: Refs, op: Operation, r: Resolved, source: map<Path, Object>)
    requires StaleCreation(refs, op, r, source)
    ensures var batch := Batch(op, r, Read(refs, IndexRef(op.kind)), source);
      ApplyBatch(refs, batch).Ok? && !Agrees(ApplyBatch(refs, batch).value, op.kind)
  {
    hide ApplyBatch, Batch, Agrees;
    StaleLands(refs, op, r, source);
    LandingExactly(refs, op, r, Read(refs, IndexRef(op.kind)), source);
    BatchEffect(refs, op, r, Read(refs, IndexRef(op.kind)), source, op.kind);
    StaleListing(source, Source(refs, op.kind), op.name, r.commit);
  }

  // ---- the run ----

  /** A document at `name` with a parent, and three publishers: of `doc` at the unused `unused`, of `other` at
      `name`, and of the first document at `name` again, given its first parent. */
  ghost function Returning(kind: Text, name: Path, unused: Path, doc: Object, tree: Object, other: Object,
                           parent: Object): State
    requires ValidSegment(kind) && ValidPath(name) && ValidPath(unused)
  {
    State(Holding(kind, name, Commit(tree, [parent], [], 0)),
          [Offering(kind, unused, doc, None), Offering(kind, name, other, None),
           Offering(kind, name, tree, Some(parent))])
  }

  function By(client: nat): Label { Label(client, 0, false) }

  /** The first reads its ref and the index; the second moves `name` on; the first reads the listing; the
      third brings `name` back; the first lands. */
  function Schedule(i: nat, j: nat, k: nat): seq<Label> {
    Repeat(By(0), i) + Repeat(By(1), j) + Repeat(By(0), k) + Repeat(By(2), j) + Repeat(By(0), k)
  }

  lemma Created(refs: Refs, kind: Text, name: Path, tree: Object)
    requires ValidPath(name) && IsDocument(tree) && EntityRef(kind, name) !in refs
    ensures Resolve(Offering(kind, name, tree, None).op, Read(refs, EntityRef(kind, name)), 0) ==
            Ready(Resolved(Rooted(tree), Some(Create(EntityRef(kind, name), Rooted(tree)))))
  {
    Messages.PlainAccepted([]);
  }

  lemma Joined(s: State, a: seq<Label>, b: seq<Label>, m: State, k: Text)
    requires WellFormed(s) && Exec(s, a) == m && NeverLandsWithoutEntity(s, a, k)
    requires WellFormed(m) && NeverLandsWithoutEntity(m, b, k)
    ensures Exec(s, a + b) == Exec(m, b) && NeverLandsWithoutEntity(s, a + b, k)
  {
    ExecAppend(s, a, b);
    NeverAppend(s, a, b, k);
  }

  function Made(kind: Text, name: Path, tree: Object): Resolved
    requires name != []
  {
    Resolved(Rooted(tree), Some(Create(EntityRef(kind, name), Rooted(tree))))
  }

  function Begun(kind: Text, name: Path, tree: Object, index: Option<Object>): Client
    requires name != []
  {
    Offering(kind, name, tree, None).(phase := AtSource(Made(kind, name, tree), index))
  }

  function Held(kind: Text, name: Path, tree: Object, index: Option<Object>, source: map<Path, Object>): (c: Client)
    requires name != []
    ensures c.op == Offering(kind, name, tree, None).op
  {
    Offering(kind, name, tree, None).(phase := AtApply(Made(kind, name, tree), index, source))
  }

  lemma FirstTurn(s: State, kind: Text, name: Path, tree: Object, i: nat)
    requires WellFormed(s) && |s.clients| == 3 && s.clients[0] == Offering(kind, name, tree, None) && i == 2
    requires ValidPath(name) && IsDocument(tree) && EntityRef(kind, name) !in s.refs
    ensures Exec(s, Repeat(By(0), i)) ==
            State(s.refs, s.clients[0 := Begun(kind, name, tree, Read(s.refs, IndexRef(kind)))])
    ensures NeverLandsWithoutEntity(s, Repeat(By(0), i), kind)
  {
    hide Resolve, Alone;
    Created(s.refs, kind, name, tree);
    TwoReads(s.refs, s.clients[0], Made(kind, name, tree), i);
    Stretch(s, By(0), i, kind, s.refs, Begun(kind, name, tree, Read(s.refs, IndexRef(kind))));
  }

  lemma MoverTurn(s: State, w: nat, kind: Text, name: Path, tree: Object, parent: Option<Object>, past: Object, j: nat)
    requires WellFormed(s) && w < |s.clients| && s.clients[w] == Offering(kind, name, tree, parent) && j == 4
    requires ValidSegment(kind) && ValidPath(name) && IsDocument(tree) && (parent.Some? ==> parent.value.Commit?)
    requires Source(s.refs, kind) == map[name := past] && past.Commit? && past.tree != tree
    ensures var end, t := Alone(s.refs, s.clients[w], 0, j), Exec(s, Repeat(By(w), j));
      && t == State(end.0, s.clients[w := end.1])
      && Source(t.refs, kind) == map[name := Commit(tree, [if parent.Some? then parent.value else past], [], 0)]
      && Agrees(t.refs, kind)
    ensures NeverLandsWithoutEntity(s, Repeat(By(w), j), kind)
  {
    hide Resolve, Alone;
    var end := Alone(s.refs, s.clients[w], 0, j);
    MovesOn(s.refs, kind, name, tree, parent, past, j);
    SourceMember(s.refs, kind, name);
    ResolvesOver(s.refs, kind, name, tree, parent, past);
    Stretch(s, By(w), j, kind, end.0, end.1);
  }

  lemma ReadTurn(s: State, kind: Text, name: Path, tree: Object, index: Option<Object>, k: nat)
    requires WellFormed(s) && |s.clients| == 3 && name != [] && s.clients[0] == Begun(kind, name, tree, index) && k == 1
    ensures Exec(s, Repeat(By(0), k)) ==
            State(s.refs, s.clients[0 := Held(kind, name, tree, index, Source(s.refs, kind))])
    ensures NeverLandsWithoutEntity(s, Repeat(By(0), k), kind)
  {
    hide Resolve, Alone;
    OneRead(s.refs, s.clients[0], k);
    Stretch(s, By(0), k, kind, s.refs, Held(kind, name, tree, index, Source(s.refs, kind)));
  }

  lemma LastTurn(s: State, kind: Text, name: Path, tree: Object, source: map<Path, Object>, k: nat)
    requires WellFormed(s) && |s.clients| == 3 && name != [] && k == 1
    requires s.clients[0] == Held(kind, name, tree, Read(s.refs, IndexRef(kind)), source)
    requires StaleCreation(s.refs, s.clients[0].op, Made(kind, name, tree), source)
    ensures !Agrees(Exec(s, Repeat(By(0), k)).refs, kind)
    ensures NeverLandsWithoutEntity(s, Repeat(By(0), k), kind)
  {
    hide Resolve, Alone, StaleCreation, Agrees, ApplyBatch, Batch;
    var c, r := s.clients[0], Made(kind, name, tree);
    StaleLanding(s.refs, c.op, r, source);
    var after := ApplyBatch(s.refs, Batch(c.op, r, Read(s.refs, IndexRef(kind)), source)).value;
    FromApply(s.refs, c, 0, k, after);
    Stretch(s, By(0), k, kind, after, c.(phase := Done(Published(Rooted(tree)))));
  }

  lemma ReturningStart(kind: Text, name: Path, unused: Path, doc: Object, tree: Object, other: Object, parent: Object)
    requires ValidSegment(kind) && Indexable(name) && Indexable(unused) && name != unused
    ensures var s := Returning(kind, name, unused, doc, tree, other, parent);
      && Initial(s) && Agrees(s.refs, kind)
      && Source(s.refs, kind) == map[name := Commit(tree, [parent], [], 0)] && EntityRef(kind, unused) !in s.refs
  {
    HoldingAgrees(kind, name, Commit(tree, [parent], [], 0));
    SourceMember(Returning(kind, name, unused, doc, tree, other, parent).refs, kind, unused);
  }

  lemma MadeProper(kind: Text, name: Path, tree: Object)
    requires ValidSegment(kind) && ValidPath(name) && IsDocument(tree)
    ensures Proper(Offering(kind, name, tree, None).op, Made(kind, name, tree))
  {
    Created(map[], kind, name, tree);
    ResolveProper(Offering(kind, name, tree, None).op, None, 0);
  }

  /** Up to the stale listing: the second has moved `name` on, and the first still holds the index of before. */
  lemma Midway(s: State, kind: Text, name: Path, unused: Path, doc: Object, tree: Object, other: Object, c: Object,
               i: nat, j: nat, k: nat) returns (m: State)
    requires WellFormed(s) && |s.clients| == 3 && i == 2 && j == 4 && k == 1
    requires s.clients[0] == Offering(kind, unused, doc, None) && s.clients[1] == Offering(kind, name, other, None)
    requires ValidSegment(kind) && ValidPath(name) && ValidPath(unused) && IsDocument(doc) && IsDocument(other)
    requires Source(s.refs, kind) == map[name := c] && c.Commit? && c.tree != other
    requires EntityRef(kind, unused) !in s.refs
    ensures m == Exec(s, Repeat(By(0), i) + Repeat(By(1), j) + Repeat(By(0), k))
    ensures |m.clients| == 3 && m.clients[2] == s.clients[2]
    ensures m.clients[0] == Held(kind, unused, doc, Read(s.refs, IndexRef(kind)), Source(m.refs, kind))
    ensures Source(m.refs, kind) == map[name := Commit(other, [c], [], 0)]
    ensures NeverLandsWithoutEntity(s, Repeat(By(0), i) + Repeat(By(1), j) + Repeat(By(0), k), kind)
  {
    hide Exec, Alone, Agrees, NeverLandsWithoutEntity, Resolve;
    FirstTurn(s, kind, unused, doc, i);
    var s1 := Exec(s, Repeat(By(0), i));
    MoverTurn(s1, 1, kind, name, other, None, c, j);
    var s2 := Exec(s1, Repeat(By(1), j));
    ReadTurn(s2, kind, unused, doc, Read(s.refs, IndexRef(kind)), k);
    m := Exec(s2, Repeat(By(0), k));
    Joined(s, Repeat(By(0), i), Repeat(By(1), j), s1, kind);
    Joined(s, Repeat(By(0), i) + Repeat(By(1), j), Repeat(By(0), k), s2, kind);
  }

  lemma BackAgain(refs: Refs, kind: Text, name: Path, unused: Path, doc: Object, c: Object, moved: Object)
    requires ValidSegment(kind) && Indexable(name) && Indexable(unused) && name != unused && IsDocument(doc)
    requires Source(refs, kind) == map[name := c] && Agrees(refs, kind) && moved != c
    ensures Read(refs, IndexRef(kind)) == Index.IndexValue(map[name := c])
    ensures StaleCreation(refs, Offering(kind, unused, doc, None).op, Made(kind, unused, doc), map[name := moved])
  {
    hide Resolve, Index.IndexValue, Proper;
    MadeProper(kind, unused, doc);
    assert map[name := moved][name] != map[name := c][name];
  }

  lemma Closing(s: State, kind: Text, name: Path, unused: Path, doc: Object, c: Object, moved: Object, k: nat)
    requires WellFormed(s) && |s.clients| == 3 && k == 1
    requires ValidSegment(kind) && Indexable(name) && Indexable(unused) && name != unused && IsDocument(doc)
    requires Source(s.refs, kind) == map[name := c] && Agrees(s.refs, kind) && moved != c
    requires s.clients[0] == Held(kind, unused, doc, Index.IndexValue(map[name := c]), map[name := moved])
    ensures !Agrees(Exec(s, Repeat(By(0), k)).refs, kind)
    ensures NeverLandsWithoutEntity(s, Repeat(By(0), k), kind)
  {
    hide Exec, NeverLandsWithoutEntity, Index.IndexValue, StaleCreation, Agrees, Held, Offering;
    BackAgain(s.refs, kind, name, unused, doc, c, moved);
    LastTurn(s, kind, unused, doc, map[name := moved], k);
  }

  /** From there: the third brings `c` back, and the first lands what it holds. */
  lemma Homeward(s: State, kind: Text, name: Path, unused: Path, doc: Object, tree: Object, other: Object,
                 parent: Object, c: Object, index: Option<Object>, j: nat, k: nat)
    requires WellFormed(s) && |s.clients| == 3 && j == 4 && k == 1
    requires ValidSegment(kind) && Indexable(name) && Indexable(unused) && name != unused
    requires IsDocument(doc) && IsDocument(tree) && tree != other
    requires parent.Commit? && c == Commit(tree, [parent], [], 0)
    requires s.clients[0] == Held(kind, unused, doc, index, Source(s.refs, kind))
    requires s.clients[2] == Offering(kind, name, tree, Some(parent))
    requires Source(s.refs, kind) == map[name := Commit(other, [c], [], 0)] && index == Index.IndexValue(map[name := c])
    ensures !Agrees(Exec(s, Repeat(By(2), j) + Repeat(By(0), k)).refs, kind)
    ensures NeverLandsWithoutEntity(s, Repeat(By(2), j) + Repeat(By(0), k), kind)
  {
    hide Exec, Alone, NeverLandsWithoutEntity, Resolve, Index.IndexValue, Agrees, Source, Offering, Held, IsDocument;
    MoverTurn(s, 2, kind, name, tree, Some(parent), Commit(other, [c], [], 0), j);
    var t := Exec(s, Repeat(By(2), j));
    Closing(t, kind, name, unused, doc, c, Commit(other, [c], [], 0), k);
    Joined(s, Repeat(By(2), j), Repeat(By(0), k), t, kind);
  }

  /** Agreement needs the walk: a commit that comes back to its name takes the index back with it, so the
      compare-and-swap on the index notices nothing. Every batch of this run that lands moves an entity ref,
      the index agrees at the start, and at the end it is stale. */
  lemma ReturningGoesStale(kind: Text, name: Path, unused: Path, doc: Object, tree: Object, other: Object,
                           parent: Object, i: nat, j: nat, k: nat)
    requires ValidSegment(kind) && Indexable(name) && Indexable(unused) && name != unused
    requires IsDocument(doc) && IsDocument(tree) && IsDocument(other) && tree != other && parent.Commit?
    requires i == 2 && j == 4 && k == 1
    ensures var s := Returning(kind, name, unused, doc, tree, other, parent);
      && Initial(s) && Agrees(s.refs, kind)
      && NeverLandsWithoutEntity(s, Schedule(i, j, k), kind) && !Agrees(Exec(s, Schedule(i, j, k)).refs, kind)
  {
    hide Exec, NeverLandsWithoutEntity, Held, Offering, Index.IndexValue;
    var s := Returning(kind, name, unused, doc, tree, other, parent);
    var c := Commit(tree, [parent], [], 0);
    ReturningStart(kind, name, unused, doc, tree, other, parent);
    var m := Midway(s, kind, name, unused, doc, tree, other, c, i, j, k);
    Homeward(m, kind, name, unused, doc, tree, other, parent, c, Read(s.refs, IndexRef(kind)), j, k);
    var front, back := Repeat(By(0), i) + Repeat(By(1), j) + Repeat(By(0), k), Repeat(By(2), j) + Repeat(By(0), k);
    Joined(s, front, back, m, kind);
    Assoc(front, Repeat(By(2), j), Repeat(By(0), k));
  }
}
