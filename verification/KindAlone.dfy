/** One client stepping with nobody in between (`git-store/src/kind.rs`): it always finishes, it repairs
    the index, and placed after a stale no-op republish it yields the run that breaks agreement. */
module KindAlone {
  import opened Wrappers
  import opened Order
  import opened Objects
  import opened RefStore
  import opened Names
  import opened Layout
  import opened IndexCodec
  import opened Tombstones
  import opened Kind
  import Index
  import Messages

  ghost function Turn(refs: Refs, c: Client, stamp: int): (t: (Refs, Client))
    requires c.op.name != []
    ensures t.1.op == c.op
  {
    var (after, phase) := Advance(refs, c, stamp);
    (after, c.(phase := phase))
  }

  /** `n` uninterrupted steps of one client. */
  ghost function Alone(refs: Refs, c: Client, stamp: int, n: nat): (r: (Refs, Client))
    requires c.op.name != []
    ensures r.1.op == c.op
    decreases n
  {
    if n == 0 then (refs, c) else var t := Turn(refs, c, stamp); Alone(t.0, t.1, stamp, n - 1)
  }

  lemma {:induction false} AloneDone(refs: Refs, c: Client, stamp: int, n: nat)
    requires c.op.name != [] && c.phase.Done?
    ensures Alone(refs, c, stamp, n) == (refs, c)
    decreases n
  {
    if n > 0 { AloneDone(refs, c, stamp, n - 1); }
  }

  /** A batch both of whose edits hold lands. */
  lemma BothHold(refs: Refs, a: Option<RefEdit>, b: Option<RefEdit>)
    requires (a.Some? ==> Holds(refs, a.value)) && (b.Some? ==> Holds(refs, b.value))
    ensures ApplyBatch(refs, Opt(a) + Opt(b)).Ok?
  {
    match (a, b)
    case (Some(x), Some(y)) => assert Opt(a) + Opt(b) == [x, y]; ApplyTwo(refs, x, y);
    case (Some(x), None) => assert Opt(a) + Opt(b) == [x]; ApplyOne(refs, x);
    case (None, Some(y)) => assert Opt(a) + Opt(b) == [y]; ApplyOne(refs, y);
    case (None, None) => assert Opt(a) + Opt(b) == [];
  }

  lemma ResolvedNow(op: Operation, refs: Refs, stamp: int)
    requires op.name != [] && Resolve(op, Read(refs, Reference(op)), stamp).Ready?
    ensures var r := Resolve(op, Read(refs, Reference(op)), stamp).resolved;
      if r.edit.Some? then MovesEntity(op, r.commit, r.edit.value) && Holds(refs, r.edit.value)
      else Read(refs, Reference(op)) == Some(r.commit)
  {
  }

  /** An index edit and a listing taken from the refs as they are. */
  lemma FreshBatch(op: Operation, refs: Refs, stamp: int)
    requires ValidSegment(op.kind) && ValidPath(op.name)
    requires Resolve(op, Read(refs, Reference(op)), stamp).Ready?
    ensures var r := Resolve(op, Read(refs, Reference(op)), stamp).resolved;
      var batch := Batch(op, r, Read(refs, IndexRef(op.kind)), Source(refs, op.kind));
      && ApplyBatch(refs, batch).Ok?
      && Agrees(ApplyBatch(refs, batch).value, op.kind)
      && Source(ApplyBatch(refs, batch).value, op.kind) == Source(refs, op.kind)[op.name := r.commit]
  {
    var r := Resolve(op, Read(refs, Reference(op)), stamp).resolved;
    var index, source := Read(refs, IndexRef(op.kind)), Source(refs, op.kind);
    var next := source[op.name := r.commit];
    ResolvedNow(op, refs, stamp);
    EditShape(op.kind, index, next);
    BothHold(refs, r.edit, IndexEdit(op.kind, index, next));
    BatchEffect(refs, op, r, index, source, op.kind);
    SourceMember(refs, op.kind, op.name);
    if r.edit == None { assert next == source; }
  }

  /** What an attempt with nobody in between comes to. */
  ghost predicate Completed(refs: Refs, op: Operation, stamp: int, after: Refs, phase: Phase)
    requires op.name != []
  {
    match Resolve(op, Read(refs, Reference(op)), stamp)
    case Settled(o) => phase == Done(o) && after == refs
    case Ready(r) =>
      && phase == Done(Success(op, r.commit))
      && Source(after, op.kind) == Source(refs, op.kind)[op.name := r.commit]
      && Agrees(after, op.kind)
  }

  // ---- single steps ----

  /** `n` steps from applying a batch that holds. */
  lemma FromApply(refs: Refs, c: Client, stamp: int, n: nat, after: Refs)
    requires c.op.name != [] && c.phase.AtApply? && n >= 1
    requires ApplyBatch(refs, Batch(c.op, c.phase.resolved, c.phase.index, c.phase.source)) == Ok(after)
    ensures Alone(refs, c, stamp, n) == (after, c.(phase := Done(Success(c.op, c.phase.resolved.commit))))
  {
    hide Resolve;
    AloneDone(after, c.(phase := Done(Success(c.op, c.phase.resolved.commit))), stamp, n - 1);
  }

  lemma NothingToApply(refs: Refs, c: Client, stamp: int, n: nat)
    requires c.op.name != [] && c.phase.AtSource? && n >= 1
    requires Batch(c.op, c.phase.resolved, c.phase.index, Source(refs, c.op.kind)) == []
    ensures Alone(refs, c, stamp, n) == (refs, c.(phase := Done(Success(c.op, c.phase.resolved.commit))))
  {
    AloneDone(refs, c.(phase := Done(Success(c.op, c.phase.resolved.commit))), stamp, n - 1);
  }

  lemma FromSource(refs: Refs, c: Client, stamp: int, n: nat, after: Refs)
    requires c.op.name != [] && c.phase.AtSource? && n >= 2
    requires ApplyBatch(refs, Batch(c.op, c.phase.resolved, c.phase.index, Source(refs, c.op.kind))) == Ok(after)
    ensures Alone(refs, c, stamp, n) == (after, c.(phase := Done(Success(c.op, c.phase.resolved.commit))))
  {
    hide Resolve, Source, Batch;
    var source := Source(refs, c.op.kind);
    if Batch(c.op, c.phase.resolved, c.phase.index, source) == [] {
      assert ApplyBatch(refs, []) == Ok(refs);
      NothingToApply(refs, c, stamp, n);
    } else {
      FromApply(refs, c.(phase := AtApply(c.phase.resolved, c.phase.index, source)), stamp, n - 1, after);
    }
  }

  /** The rest of an attempt, from its index read on, when its batch holds of the refs as they are. */
  lemma RestOfAttempt(refs: Refs, c: Client, stamp: int, n: nat, after: Refs)
    requires c.op.name != [] && c.phase.AtIndex? && n >= 3
    requires ApplyBatch(refs, Batch(c.op, c.phase.resolved, Read(refs, IndexRef(c.op.kind)), Source(refs, c.op.kind)))
             == Ok(after)
    ensures Alone(refs, c, stamp, n) == (after, c.(phase := Done(Success(c.op, c.phase.resolved.commit))))
  {
    hide Resolve, Source, Batch, ApplyBatch;
    FromSource(refs, c.(phase := AtSource(c.phase.resolved, Read(refs, IndexRef(c.op.kind)))), stamp, n - 1, after);
  }

  /** An attempt begun with nobody in between ends within four steps, and unless it settles at once it
      publishes its commit and leaves the index in agreement, whatever the index held before. */
  lemma AttemptAlone(refs: Refs, c: Client, stamp: int, n: nat)
    requires ValidSegment(c.op.kind) && ValidPath(c.op.name) && c.phase == AtRef && n >= 4
    ensures var end := Alone(refs, c, stamp, n); Completed(refs, c.op, stamp, end.0, end.1.phase)
  {
    match Resolve(c.op, Read(refs, Reference(c.op)), stamp)
    case Settled(o) =>
      AloneDone(refs, c.(phase := Done(o)), stamp, n - 1);
    case Ready(r) =>
      FreshBatch(c.op, refs, stamp);
      var batch := Batch(c.op, r, Read(refs, IndexRef(c.op.kind)), Source(refs, c.op.kind));
      RestOfAttempt(refs, c.(phase := AtIndex(r)), stamp, n - 1, ApplyBatch(refs, batch).value);
  }

  // ---- from anywhere ----

  function Rank(p: Phase): nat {
    match p case AtIndex(_) => 3 case AtSource(_, _) => 2 case AtApply(_, _, _) => 1 case _ => 0
  }

  lemma Descends(refs: Refs, c: Client, stamp: int)
    requires c.op.name != [] && Rank(c.phase) > 0
    ensures Rank(Turn(refs, c, stamp).1.phase) < Rank(c.phase)
  {
  }

  lemma FinishesFresh(refs: Refs, c: Client, stamp: int, n: nat)
    requires ValidSegment(c.op.kind) && ValidPath(c.op.name) && Rank(c.phase) == 0 && n >= 4
    ensures Alone(refs, c, stamp, n).1.phase.Done?
  {
    if c.phase.Done? { AloneDone(refs, c, stamp, n); } else { AttemptAlone(refs, c, stamp, n); }
  }

  lemma TurnFirst(refs: Refs, c: Client, stamp: int, n: nat, t: (Refs, Client))
    requires c.op.name != [] && n > 0 && t == Turn(refs, c, stamp)
    ensures Alone(refs, c, stamp, n) == Alone(t.0, t.1, stamp, n - 1)
  {
  }

  /** Obstruction freedom: from wherever it is, however stale what it has read, a client left alone
      finishes within seven steps. */
  lemma {:induction false} FinishesAlone(refs: Refs, c: Client, stamp: int, n: nat)
    requires ValidSegment(c.op.kind) && ValidPath(c.op.name) && n >= 4 + Rank(c.phase)
    ensures Rank(c.phase) <= 3 && Alone(refs, c, stamp, n).1.phase.Done?
    decreases Rank(c.phase)
  {
    hide Turn, Alone;
    if Rank(c.phase) == 0 {
      FinishesFresh(refs, c, stamp, n);
    } else {
      Descends(refs, c, stamp);
      var t := Turn(refs, c, stamp);
      FinishesAlone(t.0, t.1, stamp, n - 1);
      TurnFirst(refs, c, stamp, n, t);
    }
  }

  // ---- the run that breaks agreement ----

  function Repeat(l: Label, n: nat): seq<Label> { seq(n, i => l) }

  lemma {:induction false} ExecAppend(s: State, a: seq<Label>, b: seq<Label>)
    requires WellFormed(s)
    ensures Exec(s, a + b) == Exec(Exec(s, a), b)
  {
    if b == [] {
      assert a + b == a;
    } else {
      assert (a + b)[..|a + b| - 1] == a + b[..|b| - 1];
      ExecAppend(s, a, b[..|b| - 1]);
    }
  }

  lemma NextAlone(s: State, l: Label)
    requires WellFormed(s) && l.client < |s.clients| && !l.fails && s.clients[l.client].op.name != []
    ensures var t := Turn(s.refs, s.clients[l.client], l.stamp);
      Next(s, l) == State(t.0, s.clients[l.client := t.1])
  {
  }

  lemma {:induction false} AloneSnoc(refs: Refs, c: Client, stamp: int, n: nat)
    requires c.op.name != []
    ensures var mid := Alone(refs, c, stamp, n);
      Alone(refs, c, stamp, n + 1) == Turn(mid.0, mid.1, stamp)
    decreases n
  {
    hide Turn;
    if n > 0 { AloneSnoc(Turn(refs, c, stamp).0, Turn(refs, c, stamp).1, stamp, n - 1); }
  }

  /** `n` steps of client `l.client` alone, in the machine. */
  ghost predicate Solo(s: State, l: Label, n: nat)
    requires WellFormed(s) && l.client < |s.clients| && s.clients[l.client].op.name != []
  {
    var end := Alone(s.refs, s.clients[l.client], l.stamp, n);
    Exec(s, Repeat(l, n)) == State(end.0, s.clients[l.client := end.1])
  }

  lemma SoloOn(s: State, l: Label, n: nat)
    requires WellFormed(s) && l.client < |s.clients| && !l.fails && s.clients[l.client].op.name != []
    requires Solo(s, l, n)
    ensures Solo(s, l, n + 1)
  {
    hide Turn, Alone, Next;
    assert Repeat(l, n + 1)[..n] == Repeat(l, n);
    NextAlone(Exec(s, Repeat(l, n)), l);
    AloneSnoc(s.refs, s.clients[l.client], l.stamp, n);
  }

  /** A run in which only one client steps. */
  lemma {:induction false} ExecAlone(s: State, l: Label, n: nat)
    requires WellFormed(s) && l.client < |s.clients| && !l.fails && s.clients[l.client].op.name != []
    ensures Solo(s, l, n)
    decreases n
  {
    if n > 0 {
      ExecAlone(s, l, n - 1);
      SoloOn(s, l, n - 1);
    }
  }

  /** A no-op republish that reads the index and the listing after its name has moved on writes its
      old commit into an index that was right. */
  lemma StaleRepublish(refs: Refs, c: Client, r: Resolved, stamp: int, n: nat)
    requires ValidSegment(c.op.kind) && Indexable(c.op.name) && c.phase == AtIndex(r) && r.edit == None && n >= 3
    requires Agrees(refs, c.op.kind) && Index.AllIndexable(Source(refs, c.op.kind))
    requires c.op.name in Source(refs, c.op.kind) && Source(refs, c.op.kind)[c.op.name] != r.commit
    ensures !Agrees(Alone(refs, c, stamp, n).0, c.op.kind)
  {
    var index, source := Read(refs, IndexRef(c.op.kind)), Source(refs, c.op.kind);
    var next := source[c.op.name := r.commit];
    Index.IndexesDiffer(source, next);
    EditShape(c.op.kind, index, next);
    BothHold(refs, None, IndexEdit(c.op.kind, index, next));
    BatchEffect(refs, c.op, r, index, source, c.op.kind);
    RestOfAttempt(refs, c, stamp, n, ApplyBatch(refs, Batch(c.op, r, index, source)).value);
  }

  function Offering(kind: Text, name: Path, tree: Object, parent: Option<Object>): Client {
    Client(PublishDocument(kind, name, tree, [], parent, None, true), AtRef)
  }

  function Publisher(kind: Text, name: Path, tree: Object): Client { Offering(kind, name, tree, None) }

  function Rooted(tree: Object): Object { Commit(tree, [], [], 0) }

  /** A store that has the commit `c` at `name`, its index, and nothing else. */
  ghost function Holding(kind: Text, name: Path, c: Object): Refs
    requires ValidSegment(kind) && ValidPath(name)
  {
    map[EntityRef(kind, name) := c, IndexRef(kind) := Index.WriteTree(Index.ListingOf(map[name := c]))]
  }

  lemma HoldingSource(kind: Text, name: Path, c: Object)
    requires ValidSegment(kind) && ValidPath(name)
    ensures Source(Holding(kind, name, c), kind) == map[name := c]
  {
    var none: Refs := map[];
    var one := none[EntityRef(kind, name) := c];
    SourceOfEntityWrite(none, kind, name, c);
    IndexApart(kind, kind);
    SourceFrame(one, kind, Create(IndexRef(kind), Index.WriteTree(Index.ListingOf(map[name := c]))));
    assert Source(none, kind) == map[];
  }

  lemma HoldingIndex(kind: Text, name: Path, c: Object)
    requires ValidSegment(kind) && ValidPath(name)
    ensures Read(Holding(kind, name, c), IndexRef(kind)) == Index.IndexValue(map[name := c])
  {
    assert name in map[name := c];
  }

  lemma HoldingNames(kind: Text, name: Path, c: Object, k: Text, p: Path)
    requires ValidSegment(kind) && ValidPath(name) && ValidSegment(k) && p in Source(Holding(kind, name, c), k)
    ensures p == name
  {
    SourceMember(Holding(kind, name, c), k, p);
    IndexApart(kind, k);
    RelativeOfJoin(Entities(k), p);
    EntityRefInjective(k, p, kind, name);
  }

  lemma HoldingAgrees(kind: Text, name: Path, c: Object)
    requires ValidSegment(kind) && Indexable(name)
    ensures Source(Holding(kind, name, c), kind) == map[name := c]
    ensures Agrees(Holding(kind, name, c), kind)
    ensures forall k: Text, p :: ValidSegment(k) && p in Source(Holding(kind, name, c), k) ==> Indexable(p)
  {
    HoldingSource(kind, name, c);
    HoldingIndex(kind, name, c);
    forall k: Text, p | ValidSegment(k) && p in Source(Holding(kind, name, c), k) ensures p == name {
      HoldingNames(kind, name, c, k, p);
    }
  }

  /** The first publisher finds its own document at the name and resolves to a no-op. */
  lemma FindsItsOwn(refs: Refs, kind: Text, name: Path, tree: Object, n: nat)
    requires ValidSegment(kind) && ValidPath(name) && IsDocument(tree) && n == 1
    requires Read(refs, EntityRef(kind, name)) == Some(Rooted(tree))
    ensures var a := Publisher(kind, name, tree);
      Alone(refs, a, 0, n) == (refs, a.(phase := AtIndex(Resolved(Rooted(tree), None))))
  {
    var a := Publisher(kind, name, tree);
    var next := a.(phase := AtIndex(Resolved(Rooted(tree), None)));
    assert Advance(refs, a, 0) == (refs, next.phase);
    assert Turn(refs, a, 0) == (refs, next);
  }

  lemma ResolvesOver(refs: Refs, kind: Text, name: Path, tree: Object, parent: Option<Object>, past: Object)
    requires ValidSegment(kind) && ValidPath(name) && IsDocument(tree) && (parent.Some? ==> parent.value.Commit?)
    requires Read(refs, EntityRef(kind, name)) == Some(past) && past.Commit? && past.tree != tree
    ensures var c := Commit(tree, [if parent.Some? then parent.value else past], [], 0);
      Resolve(Offering(kind, name, tree, parent).op, Read(refs, EntityRef(kind, name)), 0) ==
      Ready(Resolved(c, Some(Update(EntityRef(kind, name), past, c))))
  {
    Messages.PlainAccepted([]);
  }

  /** A publisher left alone moves its name on to another document, and the index with it. */
  lemma MovesOn(refs: Refs, kind: Text, name: Path, tree: Object, parent: Option<Object>, past: Object, n: nat)
    requires ValidSegment(kind) && ValidPath(name) && IsDocument(tree) && (parent.Some? ==> parent.value.Commit?)
    requires Source(refs, kind) == map[name := past] && past.Commit? && past.tree != tree && n >= 4
    ensures var after := Alone(refs, Offering(kind, name, tree, parent), 0, n).0;
      && Source(after, kind) == map[name := Commit(tree, [if parent.Some? then parent.value else past], [], 0)]
      && Agrees(after, kind)
  {
    hide Alone, Resolve;
    SourceMember(refs, kind, name);
    ResolvesOver(refs, kind, name, tree, parent, past);
    AttemptAlone(refs, Offering(kind, name, tree, parent), 0, n);
  }

  function Turns(i: nat, j: nat, k: nat): seq<Label> {
    Repeat(Label(0, 0, false), i) + Repeat(Label(1, 0, false), j) + Repeat(Label(0, 0, false), k)
  }

  /** Two clients: some steps of the first, some of the second, and some more of the first. */
  lemma TakingTurns(s: State, i: nat, j: nat, k: nat)
    requires WellFormed(s) && |s.clients| == 2 && s.clients[0].op.name != [] && s.clients[1].op.name != []
    ensures var begun := Alone(s.refs, s.clients[0], 0, i);
      var moved := Alone(begun.0, s.clients[1], 0, j);
      Exec(s, Turns(i, j, k)).refs == Alone(moved.0, begun.1, 0, k).0
  {
    var first, second := Label(0, 0, false), Label(1, 0, false);
    ExecAppend(s, Repeat(first, i) + Repeat(second, j), Repeat(first, k));
    ExecAppend(s, Repeat(first, i), Repeat(second, j));
    ExecAlone(s, first, i);
    var s1 := Exec(s, Repeat(first, i));
    ExecAlone(s1, second, j);
    var s2 := Exec(s1, Repeat(second, j));
    ExecAlone(s2, first, k);
  }

  ghost function Rivals(kind: Text, name: Path, tree: Object, other: Object): State
    requires ValidSegment(kind) && ValidPath(name)
  {
    State(Holding(kind, name, Rooted(tree)), [Publisher(kind, name, tree), Publisher(kind, name, other)])
  }

  lemma RivalsStart(kind: Text, name: Path, tree: Object, other: Object)
    requires ValidSegment(kind) && Indexable(name)
    ensures Initial(Rivals(kind, name, tree, other)) && Agrees(Rivals(kind, name, tree, other).refs, kind)
  {
    HoldingAgrees(kind, name, Rooted(tree));
  }

  lemma RivalsEnd(s: State, kind: Text, name: Path, tree: Object, other: Object, i: nat, j: nat, k: nat)
    requires ValidSegment(kind) && Indexable(name) && IsDocument(tree) && IsDocument(other) && tree != other
    requires WellFormed(s) && s.clients == [Publisher(kind, name, tree), Publisher(kind, name, other)]
    requires Source(s.refs, kind) == map[name := Rooted(tree)]
    requires i == 1 && j >= 4 && k >= 3
    ensures !Agrees(Exec(s, Turns(i, j, k)).refs, kind)
  {
    hide Alone, Resolve, Exec;
    SourceMember(s.refs, kind, name);
    TakingTurns(s, i, j, k);
    FindsItsOwn(s.refs, kind, name, tree, i);
    MovesOn(s.refs, kind, name, other, None, Rooted(tree), j);
    var begun := Publisher(kind, name, tree).(phase := AtIndex(Resolved(Rooted(tree), None)));
    StaleRepublish(Alone(s.refs, Publisher(kind, name, other), 0, j).0, begun, begun.phase.resolved, 0, k);
  }

  /** Agreement is not kept without its condition: for every name and any two different documents, two
      publishers given no parent and no expectation can start in agreement and end with a stale index. */
  lemma AgreementCanBreak(kind: Text, name: Path, tree: Object, other: Object, j: nat, k: nat)
    requires ValidSegment(kind) && Indexable(name) && IsDocument(tree) && IsDocument(other) && tree != other
    requires j >= 4 && k >= 3
    ensures var s := Rivals(kind, name, tree, other);
      Initial(s) && Agrees(s.refs, kind) && !Agrees(Exec(s, Turns(1, j, k)).refs, kind)
  {
    RivalsStart(kind, name, tree, other);
    HoldingAgrees(kind, name, Rooted(tree));
    RivalsEnd(Rivals(kind, name, tree, other), kind, name, tree, other, 1, j, k);
  }
}
