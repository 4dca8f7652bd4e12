/** One client's run as a function of what it met at each access (`git-store/src/kind.rs`), and what that
    says of its one landed batch whatever the others did in between. */
module KindTrace {
  import opened Wrappers
  import opened Objects
  import opened RefStore
  import opened SharedStore
  import opened Layout
  import opened Names
  import opened Tombstones
  import opened Kind
  import Messages

  /** The phase `op` has reached after the accesses `seen`. */
  ghost function Follow(op: Operation, seen: seq<Access>): Phase
    requires op.name != []
    decreases |seen|
  {
    if seen == [] then AtRef
    else
      var last := seen[|seen| - 1];
      Advance(last.refs, Client(op, Follow(op, seen[..|seen| - 1])), last.stamp).1
  }

  ghost function LandingOf(op: Operation, phase: Phase, refs: Refs): seq<Landing>
    requires op.name != []
  {
    if phase.AtApply? && ApplyBatch(refs, Batch(op, phase.resolved, phase.index, phase.source)).Ok?
    then [Landing(refs, Batch(op, phase.resolved, phase.index, phase.source))]
    else []
  }

  /** The batch that landed at the last access, if one did. */
  ghost function Landings(op: Operation, seen: seq<Access>): seq<Landing>
    requires op.name != []
  {
    if seen == [] then []
    else LandingOf(op, Follow(op, seen[..|seen| - 1]), seen[|seen| - 1].refs)
  }

  /** The refs as the last access leaves them. */
  ghost function Left(op: Operation, seen: seq<Access>): Refs
    requires op.name != [] && seen != []
  {
    var landed := Landings(op, seen);
    if landed == [] then seen[|seen| - 1].refs else Publish(landed[0].before, landed[0].edits)
  }

  lemma FollowOn(op: Operation, seen: seq<Access>, next: Access)
    requires op.name != []
    ensures Follow(op, seen + [next]) == Advance(next.refs, Client(op, Follow(op, seen)), next.stamp).1
  {
    assert (seen + [next])[..|seen + [next]| - 1] == seen;
  }

  lemma LandingsOn(op: Operation, seen: seq<Access>, next: Access)
    requires op.name != []
    ensures Landings(op, seen + [next]) == LandingOf(op, Follow(op, seen), next.refs)
  {
    assert (seen + [next])[..|seen + [next]| - 1] == seen;
  }

  lemma {:induction false} FollowProper(op: Operation, seen: seq<Access>)
    requires ValidSegment(op.kind) && op.name != []
    ensures PhaseProper(op, Follow(op, seen))
    decreases |seen|
  {
    if seen != [] {
      FollowProper(op, seen[..|seen| - 1]);
      var last := seen[|seen| - 1];
      AdvanceProper(last.refs, Client(op, Follow(op, seen[..|seen| - 1])), last.stamp);
    }
  }

  // ---- what the reads of an attempt were ----

  function AttemptAt(op: Operation, a: Access): Attempt
    requires op.name != []
  {
    Resolve(op, Read(a.refs, Reference(op)), a.stamp)
  }

  lemma AttemptProper(op: Operation, a: Access)
    requires ValidSegment(op.kind) && op.name != [] && AttemptAt(op, a).Ready?
    ensures Proper(op, AttemptAt(op, a).resolved)
  {
    ResolveProper(op, Read(a.refs, Reference(op)), a.stamp);
  }

  /** The batch of an attempt that met `a` at its ref, `b` at the index and `c` at the source; none if it
      settled at the ref. */
  ghost function BatchAt(op: Operation, a: Access, b: Access, c: Access): seq<RefEdit>
    requires op.name != []
  {
    match AttemptAt(op, a)
    case Ready(r) => Batch(op, r, Read(b.refs, IndexRef(op.kind)), Source(c.refs, op.kind))
    case Settled(_) => []
  }

  /** Where a client stands in an attempt is what the last few accesses were. */
  ghost predicate Attempting(op: Operation, seen: seq<Access>)
    requires op.name != []
  {
    var p, n := Follow(op, seen), |seen|;
    && (p.AtIndex? ==> n >= 1 && AttemptAt(op, seen[n - 1]) == Ready(p.resolved))
    && (p.AtSource? ==>
          && n >= 2 && AttemptAt(op, seen[n - 2]) == Ready(p.resolved)
          && p.index == Read(seen[n - 1].refs, IndexRef(op.kind)))
    && (p.AtApply? ==>
          && n >= 3 && AttemptAt(op, seen[n - 3]) == Ready(p.resolved)
          && p.index == Read(seen[n - 2].refs, IndexRef(op.kind)) && p.source == Source(seen[n - 1].refs, op.kind))
  }

  lemma AttemptsOn(op: Operation, front: seq<Access>, last: Access)
    requires op.name != [] && Attempting(op, front)
    ensures Attempting(op, front + [last])
  {
    hide Resolve, Batch, Follow, ApplyBatch;
    FollowOn(op, front, last);
    var seen := front + [last];
    var n := |front|;
    assert seen[n] == last && forall i :: 0 <= i < n ==> seen[i] == front[i];
    match Follow(op, front)
    case AtRef =>
    case AtIndex(_) =>
    case AtSource(_, _) =>
    case AtApply(_, _, _) =>
    case Done(_) =>
  }

  lemma {:induction false} FollowAttempts(op: Operation, seen: seq<Access>)
    requires op.name != []
    ensures Attempting(op, seen)
    decreases |seen|
  {
    if seen != [] {
      hide Attempting;
      FollowAttempts(op, seen[..|seen| - 1]);
      AttemptsOn(op, seen[..|seen| - 1], seen[|seen| - 1]);
      assert seen[..|seen| - 1] + [seen[|seen| - 1]] == seen;
    }
  }

  /** Why a run that ends here ends in `o`, from the accesses of its last attempt, and what it landed. */
  ghost predicate Explained(op: Operation, seen: seq<Access>, o: Outcome)
    requires op.name != [] && seen != []
  {
    var n := |seen|;
    match o
    case Published(c) => op.PublishDocument? && (Unmoved(op, seen, c) || Landed(op, seen, c))
    case Deleted(c) => op.DeleteName? && (Unmoved(op, seen, c) || Landed(op, seen, c))
    case Failed(Lost(race)) =>
      && !Retries(op) && Landings(op, seen) == []
      && n >= 4 && AttemptAt(op, seen[n - 4]).Ready?
      && ApplyBatch(seen[n - 1].refs, BatchAt(op, seen[n - 4], seen[n - 3], seen[n - 2])) == Err(race)
    case _ => AttemptAt(op, seen[n - 1]) == Settled(o) && Landings(op, seen) == []
  }

  /** There was nothing to do: the ref held `c`, and the index was right. */
  ghost predicate Unmoved(op: Operation, seen: seq<Access>, c: Object)
    requires op.name != []
  {
    var n := |seen|;
    && n >= 3 && AttemptAt(op, seen[n - 3]).Ready? && AttemptAt(op, seen[n - 3]).resolved.commit == c
    && BatchAt(op, seen[n - 3], seen[n - 2], seen[n - 1]) == [] && Landings(op, seen) == []
  }

  /** The last access landed the batch of the three before it. */
  ghost predicate Landed(op: Operation, seen: seq<Access>, c: Object)
    requires op.name != []
  {
    var n := |seen|;
    && n >= 4 && AttemptAt(op, seen[n - 4]).Ready? && AttemptAt(op, seen[n - 4]).resolved.commit == c
    && ApplyBatch(seen[n - 1].refs, BatchAt(op, seen[n - 4], seen[n - 3], seen[n - 2])).Ok?
    && Landings(op, seen) == [Landing(seen[n - 1].refs, BatchAt(op, seen[n - 4], seen[n - 3], seen[n - 2]))]
  }

  /** How the step that applies a batch ends a run. */
  lemma ApplyingEnds(op: Operation, p: Phase, last: Access)
    requires op.name != [] && p.AtApply? && Advance(last.refs, Client(op, p), last.stamp).1.Done?
    ensures var o, batch := Advance(last.refs, Client(op, p), last.stamp).1.outcome,
                            Batch(op, p.resolved, p.index, p.source);
      match ApplyBatch(last.refs, batch)
      case Ok(_) => o == Success(op, p.resolved.commit) && LandingOf(op, p, last.refs) == [Landing(last.refs, batch)]
      case Err(race) => o == Failed(Lost(race)) && !Retries(op) && LandingOf(op, p, last.refs) == []
  {
  }

  /** The batch about to be applied is the one the last three accesses make. */
  lemma AboutToApply(op: Operation, p: Phase, a: Access, b: Access, c: Access)
    requires op.name != [] && p.AtApply? && AttemptAt(op, a) == Ready(p.resolved)
    requires p.index == Read(b.refs, IndexRef(op.kind)) && p.source == Source(c.refs, op.kind)
    ensures BatchAt(op, a, b, c) == Batch(op, p.resolved, p.index, p.source)
  {
  }

  lemma EndsApplying(op: Operation, front: seq<Access>, last: Access)
    requires op.name != [] && Follow(op, front).AtApply? && Follow(op, front + [last]).Done?
    ensures Explained(op, front + [last], Follow(op, front + [last]).outcome)
  {
    hide AttemptAt, BatchAt, Batch, ApplyBatch, Follow, Advance, Landings, LandingOf;
    FollowAttempts(op, front);
    FollowOn(op, front, last);
    LandingsOn(op, front, last);
    var p, seen, n := Follow(op, front), front + [last], |front|;
    assert seen[n] == last && seen[n - 3] == front[n - 3] && seen[n - 2] == front[n - 2] && seen[n - 1] == front[n - 1];
    AboutToApply(op, p, seen[n - 3], seen[n - 2], seen[n - 1]);
    ApplyingEnds(op, p, last);
  }

  lemma EndsReading(op: Operation, front: seq<Access>, last: Access)
    requires op.name != [] && Follow(op, front).AtSource? && Follow(op, front + [last]).Done?
    ensures Explained(op, front + [last], Follow(op, front + [last]).outcome)
  {
    hide Resolve;
    FollowAttempts(op, front);
    FollowOn(op, front, last);
    LandingsOn(op, front, last);
  }

  lemma EndsAtOnce(op: Operation, front: seq<Access>, last: Access)
    requires op.name != [] && Follow(op, front).AtRef? && Follow(op, front + [last]).Done?
    ensures Explained(op, front + [last], Follow(op, front + [last]).outcome)
  {
    FollowOn(op, front, last);
    LandingsOn(op, front, last);
  }

  /** However the others interfere: what a finished operation reports is explained by its last attempt,
      and what it has landed is exactly that attempt's batch or nothing. */
  lemma WhatLanded(op: Operation, seen: seq<Access>)
    requires op.name != []
    requires seen != [] && Follow(op, seen).Done? && !Follow(op, seen[..|seen| - 1]).Done?
    ensures Explained(op, seen, Follow(op, seen).outcome)
  {
    hide Resolve, Explained;
    var front, last := seen[..|seen| - 1], seen[|seen| - 1];
    assert seen == front + [last];
    match Follow(op, front)
    case AtRef => EndsAtOnce(op, front, last);
    case AtSource(_, _) => EndsReading(op, front, last);
    case AtApply(_, _, _) => EndsApplying(op, front, last);
    case AtIndex(_) => FollowOn(op, front, last);
  }

  /** `e` moved the entity ref to `c`: publishing, over a value that admits the publication and does not hold
      its document yet, to a commit of its document and message; deleting, from the live commit whose document
      `c` buries. */
  ghost predicate EntityAccounted(op: Operation, c: Object, before: Refs, e: RefEdit)
    requires op.name != []
  {
    && MovesEntity(op, c, e) && Holds(before, e) && c.Commit?
    && c.parents == ParentsOver(op, e)
    && (op.PublishDocument? ==>
          && c.tree == op.tree && c.message == op.message && Messages.Accepted(op.message)
          && Admits(op, Read(before, Reference(op))) && !Standing(op, Read(before, Reference(op))))
    && (op.DeleteName? ==>
          && Reference(op) in before && Buries(op.kind, c, before[Reference(op)])
          && c.message == DeletionMessage(op.kind))
  }

  /** One landed batch moved the ref to `c`, by an edit that answers for itself; the commit was written when
      the ref was read. */
  ghost predicate MovedTo(op: Operation, seen: seq<Access>, c: Object)
    requires op.name != [] && seen != []
  {
    var landed := Landings(op, seen);
    && |landed| == 1 && |seen| >= 4 && c.Commit? && c.stamp == seen[|seen| - 4].stamp
    && landed[0].edits != [] && EntityAccounted(op, c, landed[0].before, landed[0].edits[0])
    && Read(Left(op, seen), Reference(op)) == Some(c)
  }

  /** The ref was found at `c`, which admits the publication, and nothing landed has touched it. */
  ghost predicate FoundAt(op: Operation, seen: seq<Access>, c: Object)
    requires op.name != []
  {
    && op.PublishDocument? && Admits(op, Some(c)) && Standing(op, Some(c))
    && (exists a :: a in seen && Read(a.refs, Reference(op)) == Some(c))
    && forall landing <- Landings(op, seen) :: forall e <- landing.edits :: e.name == IndexRef(op.kind)
  }

  /** What a success reported as `c` means. */
  ghost predicate Answered(op: Operation, seen: seq<Access>, c: Object)
    requires op.name != [] && seen != []
  {
    && c.Commit? && (op.PublishDocument? ==> c.tree == op.tree)
    && (MovedTo(op, seen, c) || FoundAt(op, seen, c))
  }

  lemma FoundThere(op: Operation, a: Access)
    requires op.name != [] && AttemptAt(op, a).Ready? && AttemptAt(op, a).resolved.edit == None
    ensures op.PublishDocument? && Read(a.refs, Reference(op)) == Some(AttemptAt(op, a).resolved.commit)
  {
  }

  lemma MovedThere(op: Operation, r: Resolved, index: Option<Object>, source: map<Path, Object>, refs: Refs)
    requires ValidSegment(op.kind) && ValidPath(op.name) && Proper(op, r) && r.edit.Some?
    requires ApplyBatch(refs, Batch(op, r, index, source)).Ok?
    ensures var batch := Batch(op, r, index, source);
      && batch != [] && batch[0] == r.edit.value && EntityAccounted(op, r.commit, refs, r.edit.value)
      && Read(ApplyBatch(refs, batch).value, Reference(op)) == Some(r.commit)
  {
    BatchEffect(refs, op, r, index, source, op.kind);
    SourceMember(ApplyBatch(refs, Batch(op, r, index, source)).value, op.kind, op.name);
  }

  lemma OnlyIndexed(op: Operation, r: Resolved, index: Option<Object>, source: map<Path, Object>)
    requires r.edit == None
    ensures forall e <- Batch(op, r, index, source) :: e.name == IndexRef(op.kind)
  {
    EditShape(op.kind, index, source[op.name := r.commit]);
  }

  /** A commit that moves the ref was written when the ref was read. */
  lemma WrittenThen(op: Operation, a: Access)
    requires op.name != [] && AttemptAt(op, a).Ready? && AttemptAt(op, a).resolved.edit.Some?
    ensures AttemptAt(op, a).resolved.commit.Commit? && AttemptAt(op, a).resolved.commit.stamp == a.stamp
  {
  }

  lemma MovedAnswered(op: Operation, seen: seq<Access>, r: Resolved, index: Option<Object>,
                      source: map<Path, Object>, before: Refs)
    requires ValidSegment(op.kind) && ValidPath(op.name) && |seen| >= 4 && Proper(op, r) && r.edit.Some?
    requires ApplyBatch(before, Batch(op, r, index, source)).Ok? && r.commit.stamp == seen[|seen| - 4].stamp
    requires Landings(op, seen) == [Landing(before, Batch(op, r, index, source))]
    ensures Answered(op, seen, r.commit)
  {
    hide Batch, Landings, EntityAccounted, Follow;
    MovedThere(op, r, index, source, before);
    assert MovedTo(op, seen, r.commit);
  }

  lemma IndexedAnswered(op: Operation, seen: seq<Access>, a: Access, r: Resolved, index: Option<Object>,
                        source: map<Path, Object>, before: Refs)
    requires op.name != [] && a in seen && Proper(op, r) && r.edit == None
    requires op.PublishDocument? && Read(a.refs, Reference(op)) == Some(r.commit)
    requires Landings(op, seen) == [Landing(before, Batch(op, r, index, source))]
    ensures Answered(op, seen, r.commit)
  {
    hide Batch, Landings, Follow;
    OnlyIndexed(op, r, index, source);
    assert FoundAt(op, seen, r.commit);
  }

  lemma LandedAnswered(op: Operation, seen: seq<Access>, c: Object)
    requires ValidSegment(op.kind) && ValidPath(op.name) && seen != [] && Landed(op, seen, c)
    ensures Answered(op, seen, c) && |Landings(op, seen)| == 1
  {
    hide AttemptAt, Follow, Batch, Landings, ApplyBatch, Answered, Proper, Source;
    var n := |seen|;
    var a, r, before := seen[n - 4], AttemptAt(op, seen[n - 4]).resolved, seen[n - 1].refs;
    var index, source := Read(seen[n - 3].refs, IndexRef(op.kind)), Source(seen[n - 2].refs, op.kind);
    AttemptProper(op, a);
    if r.edit.Some? {
      WrittenThen(op, a);
      MovedAnswered(op, seen, r, index, source, before);
    } else {
      FoundThere(op, a);
      IndexedAnswered(op, seen, a, r, index, source, before);
    }
  }

  lemma UnmovedAnswered(op: Operation, seen: seq<Access>, c: Object)
    requires ValidSegment(op.kind) && ValidPath(op.name) && seen != [] && Unmoved(op, seen, c)
    ensures Answered(op, seen, c) && op.PublishDocument?
  {
    hide Resolve, Follow;
    var a := seen[|seen| - 3];
    AttemptProper(op, a);
    FoundThere(op, a);
  }

  /** Every word of a reported success is true. */
  lemma SuccessAnswered(op: Operation, seen: seq<Access>, c: Object)
    requires ValidSegment(op.kind) && ValidPath(op.name) && seen != []
    requires Unmoved(op, seen, c) || Landed(op, seen, c)
    ensures Answered(op, seen, c)
    ensures op.DeleteName? ==> |Landings(op, seen)| == 1
  {
    if Landed(op, seen, c) { LandedAnswered(op, seen, c); } else { UnmovedAnswered(op, seen, c); }
  }

  /** Why an operation failed, or had nothing to do, in the caller's terms: `last` is what its last access
      met. At most one outcome answers to each. */
  ghost predicate Because(op: Operation, o: Outcome, last: Access)
    requires op.name != []
  {
    var found := Read(last.refs, Reference(op));
    if op.PublishDocument? then Denies(op, found, o)
    else
      match o
      case NoSuchName => found == None
      case AlreadyDeleted(c) => found == Some(c) && Marked(op.kind, c)
      case Failed(BadDocument) => found.Some? && !Live(found.value) && !Marked(op.kind, found.value)
      case _ => false
  }

  lemma SettledBecause(op: Operation, a: Access)
    requires op.name != [] && AttemptAt(op, a).Settled?
    ensures Because(op, AttemptAt(op, a).outcome, a)
  {
    hide Resolve, Admits, Denies, Live, Marked;
    if op.PublishDocument? { PublishResolves(op, Read(a.refs, Reference(op)), a.stamp); }
    else { DeleteResolves(op, Read(a.refs, Reference(op)), a.stamp); }
  }
}
