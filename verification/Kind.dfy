/** Publishing and deleting one entity (`git-store/src/kind.rs`): read the entity ref, read the index
    ref, read the source listing, then one compare-and-swap batch, retried on a lost race. Any number
    of clients run this at once; every read and every batch is a step of its own. */
module Kind {
  import opened Wrappers
  import opened Order
  import opened Objects
  import opened RefStore
  import opened Names
  import opened Layout
  import opened IndexCodec
  import opened Tombstones
  import Index
  import Messages

  datatype Operation =
    | PublishDocument(kind: Text, name: Path, tree: Object, message: Text,
              parent: Option<Object>, demand: Option<Expectation>, retry: bool)
    | DeleteName(kind: Text, name: Path)

  datatype Failure =
    | BadDocument | NotACommit | ReservedTrailer
    | Stale(expected: Expectation) | Lost(race: LostRace) | Backend

  datatype Outcome =
    | Published(commit: Object) | NotApplied
    | Deleted(commit: Object) | AlreadyDeleted(commit: Object) | NoSuchName
    | Failed(failure: Failure)

  /** One attempt brought to a commit, and the edit that moves the ref there if it must move. */
  datatype Resolved = Resolved(commit: Object, edit: Option<RefEdit>)

  datatype Attempt = Settled(outcome: Outcome) | Ready(resolved: Resolved)

  function Reference(op: Operation): Text
    requires op.name != []
  {
    EntityRef(op.kind, op.name)
  }

  function DeletionMessage(kind: Text): Text { Ascii("delete ") + kind }

  /** `resolve_publish`, and the head of the loop in `delete_name`, given what the ref held. */
  function Resolve(op: Operation, current: Option<Object>, stamp: int): Attempt
    requires op.name != []
  {
    match op
    case PublishDocument(kind, name, tree, message, parent, demand, retry) =>
      if !IsDocument(tree) then Settled(Failed(BadDocument))
      else if parent.Some? && !parent.value.Commit? then Settled(Failed(NotACommit))
      else if demand.Some? && !Matches(demand.value, current) then
        Settled(if retry then NotApplied else Failed(Stale(demand.value)))
      else (
        match current
        case Some(c) =>
          if !c.Commit? then Settled(Failed(NotACommit))
          else if c.tree == tree then Ready(Resolved(c, None))
          else if !Messages.Accepted(message) then Settled(Failed(ReservedTrailer))
          else
            var next := Commit(tree, [if parent.Some? then parent.value else c], message, stamp);
            Ready(Resolved(next, Some(Update(Reference(op), c, next))))
        case None =>
          if !Messages.Accepted(message) then Settled(Failed(ReservedTrailer))
          else
            var next := Commit(tree, if parent.Some? then [parent.value] else [], message, stamp);
            Ready(Resolved(next, Some(Create(Reference(op), next))))
      )
    case DeleteName(kind, name) =>
      match current
      case None => Settled(NoSuchName)
      case Some(c) =>
        match ReadCommit(kind, c)
        case Deleted(_) => Settled(AlreadyDeleted(c))
        case Unreadable => Settled(Failed(BadDocument))
        case Present =>
          var next := Commit(Document(Tombstone(kind, c.tree)), [c], DeletionMessage(kind), stamp);
          Ready(Resolved(next, Some(Update(Reference(op), c, next))))
  }

  /** The message of a deletion goes on with the document's id, on the same line; whatever that is, the store
      accepts it, so no deletion is refused for its message. */
  lemma DeletionAccepted(kind: Text, id: Text)
    requires ValidSegment(kind) && Messages.NEWLINE !in id
    ensures [100, 101, 108, 101, 116, 101, 32] + kind == DeletionMessage(kind)
    ensures Messages.Accepted(DeletionMessage(kind) + [SLASH] + id + [Messages.NEWLINE])
  {
    SegmentMeaning(kind);
    var line := DeletionMessage(kind) + [SLASH] + id;
    assert Ascii("delete ") == [100, 101, 108, 101, 116, 101, 32];
    assert line[0] == 'd' as int;
    assert forall i :: 0 <= i < |kind| ==> GoodAt(kind, i) && kind[i] != Messages.NEWLINE;
    assert Messages.NEWLINE !in Ascii("delete ");
    Messages.PlainAccepted(line);
    Messages.LineAccepted(line);
  }

  // ---- when an attempt is ready, and with what ----

  /** The document and the explicit parent are what they must be. */
  predicate Sound(op: Operation)
    requires op.PublishDocument?
  {
    IsDocument(op.tree) && (op.parent.Some? ==> op.parent.value.Commit?)
  }

  predicate Demanded(op: Operation, current: Option<Object>)
    requires op.PublishDocument?
  {
    op.demand.Some? ==> Matches(op.demand.value, current)
  }

  /** The document is at the ref already. */
  predicate Standing(op: Operation, current: Option<Object>)
    requires op.PublishDocument?
  {
    current.Some? && current.value.Commit? && current.value.tree == op.tree
  }

  /** A publication goes through over `current`: a sound one, that finds there what it demanded, over nothing or
      a commit, and whose message is accepted unless there is no commit to write. */
  predicate Admits(op: Operation, current: Option<Object>)
    requires op.PublishDocument?
  {
    && Sound(op) && Demanded(op, current) && (current.Some? ==> current.value.Commit?)
    && (Standing(op, current) || Messages.Accepted(op.message))
  }

  /** A publication that does not go through over `current` ends in `o`: the first of its checks to fail. */
  predicate Denies(op: Operation, current: Option<Object>, o: Outcome)
    requires op.PublishDocument?
  {
    match o
    case Failed(BadDocument) => !IsDocument(op.tree)
    case Failed(NotACommit) =>
      && IsDocument(op.tree)
      && (Sound(op) ==> Demanded(op, current) && current.Some? && !current.value.Commit?)
    case NotApplied => Sound(op) && !Demanded(op, current) && op.retry
    case Failed(Stale(e)) => Sound(op) && !Demanded(op, current) && !op.retry && op.demand == Some(e)
    case Failed(ReservedTrailer) =>
      && Sound(op) && Demanded(op, current) && (current.Some? ==> current.value.Commit?)
      && !Standing(op, current) && !Messages.Accepted(op.message)
    case _ => false
  }

  function EditOver(reference: Text, current: Option<Object>, c: Object): RefEdit {
    if current.Some? then Update(reference, current.value, c) else Create(reference, c)
  }

  function ParentsFor(op: Operation, current: Option<Object>): seq<Object> {
    if op.PublishDocument? && op.parent.Some? then [op.parent.value]
    else if current.Some? then [current.value] else []
  }

  /** A publication is ready exactly when it is admitted: with the commit that stands, or with a new commit of
      its document and message over the explicit parent or what the ref held; else it says why not. */
  lemma PublishResolves(op: Operation, current: Option<Object>, stamp: int)
    requires op.name != [] && op.PublishDocument?
    ensures var a := Resolve(op, current, stamp);
      if !Admits(op, current) then a.Settled? && Denies(op, current, a.outcome)
      else if Standing(op, current) then a == Ready(Resolved(current.value, None))
      else
        var c := Commit(op.tree, ParentsFor(op, current), op.message, stamp);
        a == Ready(Resolved(c, Some(EditOver(Reference(op), current, c))))
  {
  }

  /** A deletion is ready exactly over a live commit, with the tombstone of its document. */
  lemma DeleteResolves(op: Operation, current: Option<Object>, stamp: int)
    requires op.name != [] && op.DeleteName?
    ensures var a := Resolve(op, current, stamp);
      if current == None then a == Settled(NoSuchName)
      else if Live(current.value) then
        var document := Document(Tombstone(op.kind, current.value.tree));
        var c := Commit(document, [current.value], DeletionMessage(op.kind), stamp);
        a == Ready(Resolved(c, Some(Update(Reference(op), current.value, c))))
      else if Marked(op.kind, current.value) then a == Settled(AlreadyDeleted(current.value))
      else a == Settled(Failed(BadDocument))
  {
    if current.Some? { StateMeaning(op.kind, current.value); }
  }

  ghost function IndexEdit(kind: Text, index: Option<Object>, entries: map<Path, Object>): Option<RefEdit> {
    Index.Edit(IndexRef(kind), index, Index.ListingOf(entries))
  }

  /** The batch built from the index ref and the source listing that were read. */
  ghost function Batch(op: Operation, r: Resolved, index: Option<Object>, source: map<Path, Object>): seq<RefEdit> {
    Opt(r.edit) + Opt(IndexEdit(op.kind, index, source[op.name := r.commit]))
  }

  function Success(op: Operation, commit: Object): Outcome {
    if op.PublishDocument? then Published(commit) else Outcome.Deleted(commit)
  }

  predicate Retries(op: Operation) { op.DeleteName? || op.retry }

  // ---- the machine ----

  datatype Phase =
    | AtRef
    | AtIndex(resolved: Resolved)
    | AtSource(resolved: Resolved, index: Option<Object>)
    | AtApply(resolved: Resolved, index: Option<Object>, source: map<Path, Object>)
    | Done(outcome: Outcome)

  datatype Client = Client(op: Operation, phase: Phase)

  datatype State = State(refs: Refs, clients: seq<Client>)

  /** Client `client` steps, stamping a commit it writes with `stamp`; with `fails` it stops instead. */
  datatype Label = Label(client: nat, stamp: int, fails: bool)

  ghost function Advance(refs: Refs, c: Client, stamp: int): (Refs, Phase)
    requires c.op.name != []
  {
    match c.phase
    case AtRef =>
      (match Resolve(c.op, Read(refs, Reference(c.op)), stamp)
       case Settled(o) => (refs, Done(o))
       case Ready(r) => (refs, AtIndex(r)))
    case AtIndex(r) => (refs, AtSource(r, Read(refs, IndexRef(c.op.kind))))
    case AtSource(r, index) =>
      var source := Source(refs, c.op.kind);
      (refs, if Batch(c.op, r, index, source) == [] then Done(Success(c.op, r.commit)) else AtApply(r, index, source))
    case AtApply(r, index, source) =>
      (match ApplyBatch(refs, Batch(c.op, r, index, source))
       case Ok(after) => (after, Done(Success(c.op, r.commit)))
       case Err(race) => (refs, if Retries(c.op) then AtRef else Done(Failed(Lost(race)))))
    case Done(_) => (refs, c.phase)
  }

  ghost predicate WellFormed(s: State) {
    forall c <- s.clients :: ValidSegment(c.op.kind) && Indexable(c.op.name)
  }

  ghost function Next(s: State, l: Label): State
    requires WellFormed(s)
  {
    if l.client >= |s.clients| then s
    else
      var c := s.clients[l.client];
      assert c in s.clients;
      var (refs, phase) :=
        if l.fails && !c.phase.Done? then (s.refs, Done(Failed(Backend))) else Advance(s.refs, c, l.stamp);
      State(refs, s.clients[l.client := c.(phase := phase)])
  }

  ghost function Exec(s: State, labels: seq<Label>): (t: State)
    requires WellFormed(s)
    ensures WellFormed(t) && |t.clients| == |s.clients|
    ensures forall i :: 0 <= i < |s.clients| ==> t.clients[i].op == s.clients[i].op
  {
    if labels == [] then s
    else
      var m := Exec(s, labels[..|labels| - 1]);
      var t := Next(m, labels[|labels| - 1]);
      assert forall c <- t.clients :: exists i :: 0 <= i < |m.clients| && m.clients[i].op == c.op by {
        forall c <- t.clients ensures exists i :: 0 <= i < |m.clients| && m.clients[i].op == c.op {
          var i :| 0 <= i < |t.clients| && t.clients[i] == c;
          assert m.clients[i].op == c.op;
        }
      }
      t
  }

  lemma NextWellFormed(s: State, l: Label)
    requires WellFormed(s)
    ensures WellFormed(Next(s, l)) && |Next(s, l).clients| == |s.clients|
    ensures forall i :: 0 <= i < |s.clients| ==> Next(s, l).clients[i].op == s.clients[i].op
  {
    assert [l][..|[l]| - 1] == [];
    assert Exec(s, [l]) == Next(Exec(s, []), l);
  }

  /** Every client is about to start. */
  ghost predicate Initial(s: State) {
    && WellFormed(s)
    && (forall c <- s.clients :: c.phase == AtRef)
    && (forall k: Text, p :: ValidSegment(k) && p in Source(s.refs, k) ==> Indexable(p))
  }

  ghost predicate Agrees(refs: Refs, kind: Text) {
    Read(refs, IndexRef(kind)) == Index.IndexValue(Source(refs, kind))
  }

  // ---- moving forward ----

  /** Every name of `a` is still in `b`, at the same commit or at a first-parent descendant. */
  ghost predicate Forward(a: map<Path, Object>, b: map<Path, Object>) {
    forall p <- a :: p in b && Reaches(b[p], a[p])
  }

  lemma ForwardTransitive(a: map<Path, Object>, b: map<Path, Object>, c: map<Path, Object>)
    requires Forward(a, b) && Forward(b, c)
    ensures Forward(a, c)
  {
    forall p <- a ensures p in c && Reaches(c[p], a[p]) { ReachesTransitive(c[p], b[p], a[p]); }
  }

  /** No way back: the step that rules out ABA. */
  lemma ForwardAntisymmetric(a: map<Path, Object>, b: map<Path, Object>)
    requires Forward(a, b) && Forward(b, a)
    ensures a == b
  {
    forall p <- a ensures p in b && a[p] == b[p] { ReachesAntisymmetric(a[p], b[p]); }
  }

  /** `c` is the tombstone of `kind` over the live commit `past`: it names the document it displaced. */
  ghost predicate Buries(kind: Text, c: Object, past: Object) {
    && c.Commit? && c.parents == [past]
    && ReadCommit(kind, past) == Present
    && c.tree == Document(Tombstone(kind, past.tree))
    && ReadCommit(kind, c) == EntityState.Deleted(Tombstone(kind, past.tree))
  }

  /** The parents of a commit written over what `e` expects: an explicit parent replaces it. */
  function ParentsOver(op: Operation, e: RefEdit): seq<Object> {
    if op.PublishDocument? && op.parent.Some? then [op.parent.value]
    else if e.Update? then [e.expected] else []
  }

  /** The commit an update puts at its ref is above the one it displaces. Without an explicit parent it
      always is. */
  predicate Climbs(op: Operation, r: Resolved) {
    r.edit.Some? && r.edit.value.Update? && op.PublishDocument? && op.parent.Some? ==>
      Reaches(op.parent.value, r.edit.value.expected)
  }

  /** The commit and the edit of an attempt, against its operation: nothing else is ever batched. */
  ghost predicate Proper(op: Operation, r: Resolved)
    requires op.name != []
  {
    && r.commit.Commit?
    && (r.edit.Some? ==> MovesEntity(op, r.commit, r.edit.value) && r.commit.parents == ParentsOver(op, r.edit.value))
    && (r.edit.Some? && r.edit.value.Update? ==> r.edit.value.expected.Commit?)
    && (op.PublishDocument? ==>
          && Sound(op) && r.commit.tree == op.tree
          && (r.edit.Some? ==> r.commit.message == op.message && Messages.Accepted(op.message))
          && (op.demand.Some? && r.edit.Some? ==> r.edit.value.Expects() == op.demand.value)
          && (op.demand.Some? && r.edit == None ==> op.demand.value == Exactly(r.commit))
          && (r.edit.Some? && r.edit.value.Update? ==> r.edit.value.expected.tree != op.tree))
    && (op.DeleteName? ==>
          && r.edit.Some? && r.edit.value.Update? && Buries(op.kind, r.commit, r.edit.value.expected)
          && r.commit.message == DeletionMessage(op.kind))
  }

  /** And against the entities: what a no-op found, or what an update expects, is on the walk. */
  ghost predicate ResolvedOk(op: Operation, r: Resolved, entities: map<Path, Object>)
    requires op.name != []
  {
    && Proper(op, r)
    && (r.edit == None ==> op.name in entities && Reaches(entities[op.name], r.commit))
    && (r.edit.Some? && r.edit.value.Update? ==>
          op.name in entities && Reaches(entities[op.name], r.edit.value.expected))
  }

  /** What a finished client was told stays true: its commit is on the walk from the ref's tip. */
  ghost predicate OutcomeOk(op: Operation, o: Outcome, entities: map<Path, Object>) {
    match o
    case Published(c) =>
      op.PublishDocument? && c.Commit? && c.tree == op.tree && op.name in entities && Reaches(entities[op.name], c)
    case Deleted(c) =>
      && op.DeleteName? && c.Commit? && |c.parents| == 1 && Buries(op.kind, c, c.parents[0])
      && op.name in entities && Reaches(entities[op.name], c)
    case AlreadyDeleted(c) =>
      op.DeleteName? && ReadCommit(op.kind, c).Deleted? && op.name in entities && Reaches(entities[op.name], c)
    case _ => true
  }

  ghost predicate ClientOk(c: Client, entities: map<Path, Object>)
    requires c.op.name != []
  {
    match c.phase
    case AtRef => true
    case AtIndex(r) => ResolvedOk(c.op, r, entities)
    case AtSource(r, _) => ResolvedOk(c.op, r, entities)
    case AtApply(r, _, source) => ResolvedOk(c.op, r, entities) && Forward(source, entities)
    case Done(o) => OutcomeOk(c.op, o, entities)
  }

  ghost predicate Inv(s: State) {
    && WellFormed(s)
    && (forall c <- s.clients :: ClientOk(c, Source(s.refs, c.op.kind)))
    && (forall k: Text, p :: ValidSegment(k) && p in Source(s.refs, k) ==> Indexable(p))
  }

  lemma ClientStable(c: Client, a: map<Path, Object>, b: map<Path, Object>)
    requires c.op.name != [] && ClientOk(c, a) && Forward(a, b)
    ensures ClientOk(c, b)
  {
    match c.phase
    case AtRef =>
    case AtIndex(r) => ResolvedStable(c.op, r, a, b);
    case AtSource(r, _) => ResolvedStable(c.op, r, a, b);
    case AtApply(r, _, source) => ResolvedStable(c.op, r, a, b); ForwardTransitive(source, a, b);
    case Done(o) =>
      if o.Published? || o.Deleted? || o.AlreadyDeleted? {
        ReachesTransitive(b[c.op.name], a[c.op.name], o.commit);
      }
  }

  lemma ResolvedStable(op: Operation, r: Resolved, a: map<Path, Object>, b: map<Path, Object>)
    requires op.name != [] && ResolvedOk(op, r, a) && Forward(a, b)
    ensures ResolvedOk(op, r, b)
  {
    match r.edit
    case None => ReachesTransitive(b[op.name], a[op.name], r.commit);
    case Some(Update(_, past, _)) => ReachesTransitive(b[op.name], a[op.name], past);
    case _ =>
  }

  lemma ResolveProper(op: Operation, current: Option<Object>, stamp: int)
    requires ValidSegment(op.kind) && op.name != []
    ensures var a := Resolve(op, current, stamp); a.Ready? ==> Proper(op, a.resolved)
  {
    if op.DeleteName? && current.Some? && current.value.Commit? {
      DocumentReads(Tombstone(op.kind, current.value.tree));
    }
  }

  /** Whatever a client has resolved so far is proper. */
  ghost predicate PhaseProper(op: Operation, phase: Phase)
    requires op.name != []
  {
    phase.AtIndex? || phase.AtSource? || phase.AtApply? ==> Proper(op, phase.resolved)
  }

  lemma AdvanceProper(refs: Refs, c: Client, stamp: int)
    requires ValidSegment(c.op.kind) && c.op.name != [] && PhaseProper(c.op, c.phase)
    ensures PhaseProper(c.op, Advance(refs, c, stamp).1)
  {
    ResolveProper(c.op, Read(refs, Reference(c.op)), stamp);
  }

  /** What an attempt resolves to against the refs it reads is true of them. */
  lemma ResolveOk(op: Operation, refs: Refs, stamp: int)
    requires ValidSegment(op.kind) && ValidPath(op.name)
    ensures match Resolve(op, Read(refs, Reference(op)), stamp)
            case Ready(r) => ResolvedOk(op, r, Source(refs, op.kind))
            case Settled(o) => OutcomeOk(op, o, Source(refs, op.kind))
  {
    ResolveProper(op, Read(refs, Reference(op)), stamp);
    SourceMember(refs, op.kind, op.name);
  }

  /** Above exactly when it climbs: the commit of an update reaches the one it displaces. */
  lemma ClimbsReaches(op: Operation, r: Resolved, entities: map<Path, Object>)
    requires op.name != [] && ResolvedOk(op, r, entities) && r.edit.Some? && r.edit.value.Update?
    ensures Reaches(r.commit, r.edit.value.expected) <==> Climbs(op, r)
    ensures Climbs(op, r) ==> !Reaches(r.edit.value.expected, r.commit)
  {
    var c, past := r.commit, r.edit.value.expected;
    ChildAbove(c);
    assert FirstParents(c) == [c] + FirstParents(c.parents[0]);
    assert c != past;
    assert Reaches(c, past) <==> Reaches(c.parents[0], past);
    if Climbs(op, r) {
      assert Reaches(c.parents[0], past);
      if Reaches(past, c) { ReachesTransitive(c.parents[0], past, c); }
    }
  }

  /** What a caller can check beforehand: no parent, or an expectation the parent is above. */
  predicate ParentChecked(op: Operation) {
    op.PublishDocument? && op.parent.Some? ==>
      op.demand.Some? && (op.demand.value.Exactly? ==> Reaches(op.parent.value, op.demand.value.value))
  }

  /** And what makes sure it moves its ref: a demand, and not for a commit that holds the document already. */
  predicate EditBearing(op: Operation) {
    op.PublishDocument? ==>
      && op.demand.Some?
      && (op.demand.value.Exactly? && op.demand.value.value.Commit? ==> op.demand.value.value.tree != op.tree)
  }

  lemma EditBearingMoves(op: Operation, r: Resolved)
    requires op.name != [] && Proper(op, r) && EditBearing(op)
    ensures r.edit.Some?
  {
  }

  lemma CheckedClimbs(op: Operation, r: Resolved, entities: map<Path, Object>)
    requires op.name != [] && ResolvedOk(op, r, entities) && ParentChecked(op)
    ensures Climbs(op, r)
  {
  }

  // ---- what one batch does ----

  lemma EditShape(kind: Text, index: Option<Object>, entries: map<Path, Object>)
    ensures match IndexEdit(kind, index, entries)
            case None => index == Index.IndexValue(entries)
            case Some(e) =>
              && e.name == IndexRef(kind) && index != Index.IndexValue(entries)
              && e.Expects() == (if index.Some? then Exactly(index.value) else Absent)
              && forall refs :: Read(Write(refs, e), e.name) == Index.IndexValue(entries)
  {
    if entries == map[] {
      assert Index.ListingOf(entries) == [];
    } else {
      var k :| k in entries;
      assert (k, entries[k]) in Index.ListingOf(entries);
    }
  }

  /** `e` moves the entity ref of `op` to `commit`. */
  predicate MovesEntity(op: Operation, commit: Object, e: RefEdit)
    requires op.name != []
  {
    !e.Delete? && e.name == Reference(op) && e.target == commit
  }

  lemma EntityWrite(refs: Refs, op: Operation, commit: Object, e: RefEdit, k: Text)
    requires ValidSegment(op.kind) && ValidPath(op.name) && MovesEntity(op, commit, e)
    ensures Source(Write(refs, e), op.kind) == Source(refs, op.kind)[op.name := commit]
    ensures ValidSegment(k) && k != op.kind ==> Source(Write(refs, e), k) == Source(refs, k)
    ensures Read(Write(refs, e), IndexRef(k)) == Read(refs, IndexRef(k))
  {
    SourceOfEntityWrite(refs, op.kind, op.name, commit);
    RelativeOfJoin(Entities(op.kind), op.name);
    IndexApart(k, op.kind);
    if ValidSegment(k) && k != op.kind {
      OtherKindApart(op.kind, op.name, k);
      SourceFrame(refs, k, e);
    }
  }

  lemma IndexWrite(refs: Refs, kind: Text, e: RefEdit, k: Text)
    requires e.name == IndexRef(kind)
    ensures Source(Write(refs, e), k) == Source(refs, k)
    ensures k != kind ==> Read(Write(refs, e), IndexRef(k)) == Read(refs, IndexRef(k))
  {
    IndexApart(kind, k);
    SourceFrame(refs, k, e);
    if IndexRef(k) == IndexRef(kind) { IndexRefInjective(k, kind); }
  }

  /** The entities and the index after a batch lands, for this kind and for every other. */
  lemma BatchEffect(refs: Refs, op: Operation, r: Resolved, index: Option<Object>, source: map<Path, Object>, k: Text)
    requires ValidSegment(op.kind) && ValidPath(op.name)
    requires r.edit.Some? ==> MovesEntity(op, r.commit, r.edit.value)
    requires ApplyBatch(refs, Batch(op, r, index, source)).Ok?
    ensures r.edit.Some? ==> Holds(refs, r.edit.value)
    ensures var after := ApplyBatch(refs, Batch(op, r, index, source)).value;
      && Source(after, op.kind) ==
         (if r.edit.Some? then Source(refs, op.kind)[op.name := r.commit] else Source(refs, op.kind))
      && (if IndexEdit(op.kind, index, source[op.name := r.commit]).Some? then
            && Read(refs, IndexRef(op.kind)) == index
            && Read(after, IndexRef(op.kind)) == Index.IndexValue(source[op.name := r.commit])
          else Read(after, IndexRef(op.kind)) == Read(refs, IndexRef(op.kind)))
      && (ValidSegment(k) && k != op.kind ==>
            Source(after, k) == Source(refs, k) && Read(after, IndexRef(k)) == Read(refs, IndexRef(k)))
  {
    var next := source[op.name := r.commit];
    var b := IndexEdit(op.kind, index, next);
    ApplyBatchCases(refs, r.edit, b);
    EditShape(op.kind, index, next);
    var mid := if r.edit.Some? then Write(refs, r.edit.value) else refs;
    if r.edit.Some? {
      EntityWrite(refs, op, r.commit, r.edit.value, k);
      EntityWrite(refs, op, r.commit, r.edit.value, op.kind);
    }
    if b.Some? {
      IndexWrite(mid, op.kind, b.value, k);
      IndexWrite(mid, op.kind, b.value, op.kind);
    }
  }
}
