/** The public operations of a kind over a contended store (`git-store/src/kind.rs`). */
module KindApi {
  import opened Wrappers
  import opened Order
  import opened Objects
  import opened RefStore
  import opened SharedStore
  import opened Names
  import opened Layout
  import opened Kind
  import opened KindTrace
  import opened KindClient
  import opened Tombstones
  import opened Envelope
  import KindAlone

  /** What a whole run that ends in `o` comes to: the machine ended there, its last attempt explains it,
      and a success answers for itself while anything else says why and has landed nothing. */
  ghost predicate Reported(op: Operation, did: seq<Access>, o: Outcome)
    requires op.name != []
  {
    && Ran(op, did, o) && Explained(op, did, o)
    && if o.Published? || o.Deleted? then Answered(op, did, o.commit)
       else Landings(op, did) == [] && ((o.Failed? && o.failure.Lost?) || Because(op, o, did[|did| - 1]))
  }

  lemma RunReported(op: Operation, did: seq<Access>, o: Outcome)
    requires ValidSegment(op.kind) && ValidPath(op.name) && Ran(op, did, o)
    ensures Reported(op, did, o)
    ensures o.Deleted? ==> |Landings(op, did)| == 1
    ensures o.Published? || o.NotApplied? ==> op.PublishDocument?
    ensures o.Deleted? || o.AlreadyDeleted? || o.NoSuchName? ==> op.DeleteName?
  {
    WhatLanded(op, did);
    if o.Published? || o.Deleted? {
      SuccessAnswered(op, did, o.commit);
    } else if !(o.Failed? && o.failure.Lost?) {
      SettledBecause(op, did[|did| - 1]);
    }
  }

  /** What an operation comes to with nobody in between, from what its ref holds. */
  ghost predicate QuietOutcome(op: Operation, found: Option<Object>, stamp: int, o: Outcome) {
    if op.PublishDocument? then
      if !Admits(op, found) then Denies(op, found, o)
      else if Standing(op, found) then o == Published(found.value)
      else o == Published(Commit(op.tree, ParentsFor(op, found), op.message, stamp))
    else if found == None then o == NoSuchName
    else if Live(found.value) then
      o == Outcome.Deleted(Commit(Document(Tombstone(op.kind, found.value.tree)), [found.value],
                                  DeletionMessage(op.kind), stamp))
    else if Marked(op.kind, found.value) then o == AlreadyDeleted(found.value)
    else o == Failed(BadDocument)
  }

  lemma QuietAttempt(op: Operation, did: seq<Access>, o: Outcome, start: Access)
    requires ValidSegment(op.kind) && ValidPath(op.name) && Reported(op, did, o)
    requires forall i :: 0 <= i < |did| ==> did[i] == start
    ensures match AttemptAt(op, start)
            case Ready(r) => o == Success(op, r.commit)
            case Settled(settled) => o == settled
  {
    hide Resolve, Batch, ApplyBatch, Answered, Because, Follow, Landings;
    if AttemptAt(op, start).Ready? { QuietBatch(op, start, start, start); }
  }

  lemma QuietReport(op: Operation, did: seq<Access>, o: Outcome, start: Access)
    requires ValidSegment(op.kind) && ValidPath(op.name) && Reported(op, did, o)
    requires forall i :: 0 <= i < |did| ==> did[i] == start
    ensures var found := Read(start.refs, Reference(op));
      && QuietOutcome(op, found, start.stamp, o)
      && (op.PublishDocument? ==> (o.Published? <==> Admits(op, found)))
      && (op.DeleteName? ==> (o.Deleted? <==> found.Some? && Live(found.value)))
  {
    hide Resolve, Admits, Standing, Live, Marked, Reported;
    QuietAttempt(op, did, o, start);
    if op.PublishDocument? { PublishResolves(op, Read(start.refs, Reference(op)), start.stamp); }
    else { DeleteResolves(op, Read(start.refs, Reference(op)), start.stamp); }
  }

  /** And what it leaves when it succeeds: its commit at its name, and the index in agreement. */
  lemma QuietLeaves(op: Operation, did: seq<Access>, o: Outcome, start: Access)
    requires ValidSegment(op.kind) && ValidPath(op.name) && Reported(op, did, o) && (o.Published? || o.Deleted?)
    requires forall i :: 0 <= i < |did| ==> did[i] == start
    ensures Source(Left(op, did), op.kind) == Source(start.refs, op.kind)[op.name := o.commit]
    ensures Agrees(Left(op, did), op.kind)
  {
    hide Resolve, Batch, ApplyBatch, Answered, Follow, Landings, Agrees, Source;
    QuietAttempt(op, did, o, start);
    KindAlone.FreshBatch(op, start.refs, start.stamp);
    var batch := BatchAt(op, start, start, start);
    if Landed(op, did, o.commit) {
      LeftLanded(op, did, Landing(start.refs, batch));
    } else {
      LeftUnmoved(op, did);
      assert ApplyBatch(start.refs, []) == Ok(start.refs) by { AppliedNothing(start.refs); }
    }
  }

  lemma AppliedNothing(refs: Refs)
    ensures ApplyBatch(refs, []) == Ok(refs)
  {
  }

  lemma LeftLanded(op: Operation, did: seq<Access>, landing: Landing)
    requires op.name != [] && did != [] && Landings(op, did) == [landing]
    requires ApplyBatch(landing.before, landing.edits).Ok?
    ensures Left(op, did) == ApplyBatch(landing.before, landing.edits).value
  {
    hide Landings;
  }

  lemma LeftUnmoved(op: Operation, did: seq<Access>)
    requires op.name != [] && did != [] && Landings(op, did) == []
    ensures Left(op, did) == did[|did| - 1].refs
  {
    hide Landings;
  }

  // ---- one-shot publication ----

  datatype PublishError = Refused(failure: Failure) | WouldBlock

  function Publishing(kind: Text, name: Path, tree: Object, message: Text, parent: Option<Object>,
                      demand: Option<Expectation>): Operation {
    PublishDocument(kind, name, tree, message, parent, demand, demand.None?)
  }

  function PublishOutcome(r: Result<Object, PublishError>): Outcome {
    match r
    case Ok(c) => Published(c)
    case Err(Refused(f)) => Failed(f)
    case Err(WouldBlock) => NotApplied
  }

  lemma PublishFacts(op: Operation, did: seq<Access>, o: Outcome)
    requires op.name != [] && op.PublishDocument? && Reported(op, did, o)
    ensures o.Published? ==> o.commit.Commit? && o.commit.tree == op.tree && Sound(op)
    ensures !o.Published? ==> Landings(op, did) == [] && Left(op, did) == did[|did| - 1].refs
    ensures o.Failed? && o.failure.Lost? ==> !op.retry
    ensures o.NotApplied? ==> op.retry && op.demand.Some?
  {
    hide Resolve, Batch, ApplyBatch, Follow, AttemptAt;
  }

  /** With an explicit expectation a publication is one shot: one attempt, and an error leaves every ref
      as the others have it. Success means the ref was moved to the commit from what was expected, or was
      found there; an error says which check failed and on what. Without an expectation it is never
      reported as not applied, and never as lost. */
  method PublishPrepared(store: SharedStore, kind: Text, name: Path, tree: Object, message: Text,
                         parent: Option<Object>, demand: Option<Expectation>)
    returns (r: Result<Object, PublishError>, ghost did: seq<Access>)
    requires ValidSegment(kind) && ValidPath(name)
    modifies store, store.memory
    ensures store.seen == old(store.seen) + did && (demand.Some? ==> |did| <= 4)
    ensures Served(old(store.Now()), old(store.moves), did, store.moves)
    ensures Reported(Publishing(kind, name, tree, message, parent, demand), did, PublishOutcome(r))
    ensures store.landed == old(store.landed) + Landings(Publishing(kind, name, tree, message, parent, demand), did)
    ensures store.memory.refs == Left(Publishing(kind, name, tree, message, parent, demand), did)
    ensures r.Ok? ==> r.value.Commit? && r.value.tree == tree
    ensures r.Err? ==> r.error.Refused? && store.landed == old(store.landed)
    ensures r.Err? && r.error.failure.Lost? ==> demand.Some?
    ensures r.Err? ==> store.memory.refs == OnlyOthers(old(store.Now()), old(store.moves), |did|).refs
    ensures r.Err? && old(store.moves) == [] ==> store.memory.refs == old(store.memory.refs)
    ensures r.Ok? ==> Sound(Publishing(kind, name, tree, message, parent, demand))
    ensures old(store.moves) == [] ==>
      var op := Publishing(kind, name, tree, message, parent, demand);
      var found := Read(old(store.memory.refs), EntityRef(kind, name));
      && (r.Ok? <==> Admits(op, found)) && QuietOutcome(op, found, old(store.clock), PublishOutcome(r))
      && (r.Ok? ==>
            && Source(store.memory.refs, kind) == Source(old(store.memory.refs), kind)[name := r.value]
            && Agrees(store.memory.refs, kind))
  {
    hide Reported, QuietOutcome, Admits, Served, Left, Landings, Agrees, Sound;
    var op := Publishing(kind, name, tree, message, parent, demand);
    var o, all := Perform(store, op);
    did := all;
    RunReported(op, did, o);
    PublishFacts(op, did, o);
    ServedInTurn(old(store.Now()), old(store.moves), did, store.moves);
    if old(store.moves) == [] {
      ServedAlone(old(store.Now()), did, store.moves);
      QuietReport(op, did, o, old(store.Now()));
      if o.Published? { QuietLeaves(op, did, o, old(store.Now())); }
    }
    match o
    case Published(c) => return Ok(c), did;
    case Failed(f) => return Err(Refused(f)), did;
    case NotApplied => return Err(WouldBlock), did;
    case _ => assert false;
  }

  // ---- deletion ----

  datatype DeleteResult = Gone(commit: Object) | Already(commit: Object) | Missing | DeleteFailed(failure: Failure)

  function DeleteOutcome(r: DeleteResult): Outcome {
    match r
    case Gone(c) => Outcome.Deleted(c)
    case Already(c) => AlreadyDeleted(c)
    case Missing => NoSuchName
    case DeleteFailed(f) => Failed(f)
  }

  /** The ref of `name` holds a commit of the value bound to the schema. */
  ghost predicate HoldsBound(refs: Refs, kind: Text, name: Path, value: Object, schema: Object)
    requires name != []
  {
    && Bindable(value) && value.entries != [] && schema.Tree?
    && var found := Read(refs, EntityRef(kind, name));
    found.Some? && found.value.Commit? && found.value.tree == Bind(value, schema)
  }

  lemma BoundGone(refs: Refs, kind: Text, name: Path)
    requires name != []
    ensures forall value, schema :: HoldsBound(refs, kind, name, value, schema) && schema != TOMBSTONE_SCHEMA ==>
      Live(refs[EntityRef(kind, name)])
  {
    forall value, schema | HoldsBound(refs, kind, name, value, schema) && schema != TOMBSTONE_SCHEMA
      ensures Live(refs[EntityRef(kind, name)])
    {
      BoundIsLive(kind, value, schema, refs[EntityRef(kind, name)]);
    }
  }

  /** A deletion that lands buries the live commit its ref then held, in one batch. It fails only when what
      it finds at the ref cannot be read as a document of the kind. */
  method DeleteEntity(store: SharedStore, kind: Text, name: Path) returns (r: DeleteResult, ghost did: seq<Access>)
    requires ValidSegment(kind) && ValidPath(name)
    modifies store, store.memory
    ensures store.seen == old(store.seen) + did
    ensures Served(old(store.Now()), old(store.moves), did, store.moves)
    ensures !r.Gone? ==> store.memory.refs == OnlyOthers(old(store.Now()), old(store.moves), |did|).refs
    ensures !r.Gone? && old(store.moves) == [] ==> store.memory.refs == old(store.memory.refs)
    ensures old(store.moves) == [] ==>
      var found := Read(old(store.memory.refs), EntityRef(kind, name));
      && (r.Gone? <==> found.Some? && Live(found.value))
      && QuietOutcome(DeleteName(kind, name), found, old(store.clock), DeleteOutcome(r))
      && (r.Gone? ==>
            && Source(store.memory.refs, kind) == Source(old(store.memory.refs), kind)[name := r.commit]
            && Agrees(store.memory.refs, kind))
    ensures old(store.moves) == [] ==> forall value, schema ::
      HoldsBound(old(store.memory.refs), kind, name, value, schema) && schema != TOMBSTONE_SCHEMA ==> r.Gone?
    ensures Reported(DeleteName(kind, name), did, DeleteOutcome(r))
    ensures store.landed == old(store.landed) + Landings(DeleteName(kind, name), did)
    ensures |store.landed| == |old(store.landed)| + if r.Gone? then 1 else 0
    ensures store.memory.refs == Left(DeleteName(kind, name), did)
    ensures var found := Read(store.memory.refs, EntityRef(kind, name));
      match r
      case Gone(c) => found == Some(c) && Marked(kind, c)
      case Already(c) => found == Some(c) && Marked(kind, c)
      case Missing => found == None
      case DeleteFailed(f) => f == BadDocument && found.Some? && !Live(found.value) && !Marked(kind, found.value)
  {
    hide QuietOutcome, Live, Marked, Served, Agrees;
    var op := DeleteName(kind, name);
    var o, all := Perform(store, op);
    did := all;
    RunReported(op, did, o);
    ServedInTurn(old(store.Now()), old(store.moves), did, store.moves);
    if old(store.moves) == [] {
      ServedAlone(old(store.Now()), did, store.moves);
      QuietReport(op, did, o, old(store.Now()));
      if o.Deleted? { QuietLeaves(op, did, o, old(store.Now())); }
      BoundGone(old(store.memory.refs), kind, name);
    }
    if o.Deleted? { StateMeaning(kind, o.commit); }
    match o
    case Deleted(c) => return Gone(c), did;
    case AlreadyDeleted(c) => return Already(c), did;
    case NoSuchName => return Missing, did;
    case Failed(f) => return DeleteFailed(f), did;
    case _ => assert false;
  }
}
