/** The index in runs whose transactions read the run itself (`git-store/src/kind.rs`, `transaction.rs`): while
    no publication strays, exactly what may not happen between a transaction's reads. */
module KindMixedReads {
  import opened Wrappers
  import opened Order
  import opened Objects
  import opened RefStore
  import opened SharedStore
  import opened Names
  import opened Layout
  import opened Kind
  import KindRuns
  import opened KindMixed
  import M = KindMixedIndex
  import Index
  import T = Transaction
  import X = TransactionIndex

  // ---- one landed transaction ----

  /** An operation that found its document there already, and so moves nothing. */
  ghost predicate Idle(e: Event, j: nat, k: Text)
    requires e.Submits? && Genuine(e) && j < |e.staged|
  {
    e.staged[j].kind == k && e.trace.steps[j].commit.Some? && e.trace.steps[j].edit == None
  }

  /** Between the two reads for the kind nobody changed a name of it that the transaction does not name, and
      what an idle operation found still stood at the second. */
  ghost predicate Undisturbed(e: Event, i: nat)
    requires e.Submits? && Genuine(e) && i < |e.trace.kinds|
  {
    var k := e.trace.kinds[i];
    var first, second := Source(X.ListedAt(e.trace, i).refs, k), Source(X.IndexedAt(e.trace, i).refs, k);
    && X.SameOff(first, second, X.Named(T.Deltas(e.staged, e.trace.steps, k)))
    && forall j :: 0 <= j < |e.staged| && Idle(e, j, k) ==>
         e.staged[j].name in second && second[e.staged[j].name] == e.trace.steps[j].commit.value
  }

  /** The value of a delta stands, no ref named twice. */
  lemma {:induction false} DeltaStands(m: map<Path, Object>, staged: seq<T.Staged>, steps: seq<T.Step>, k: Text, j: nat)
    requires T.AllValid(staged) && T.DistinctTargets(staged) && |steps| <= |staged| && j < |steps|
    requires staged[j].kind == k && steps[j].commit.Some?
    ensures var made := T.Upserted(m, T.Deltas(staged, steps, k));
      staged[j].name in made && made[staged[j].name] == steps[j].commit.value
    decreases |steps|
  {
    hide T.Upserted, T.Deltas, X.Moves;
    var n := |steps| - 1;
    X.DeltasOn(m, staged, steps[..n], steps[n], k);
    assert steps == steps[..n] + [steps[n]];
    if j < n {
      assert staged[n].Valid() && staged[j].Valid();
      assert staged[j].Target() != staged[n].Target();
      DeltaStands(m, staged, steps[..n], k, j);
    }
  }

  lemma {:induction false} DeltaNamed(staged: seq<T.Staged>, steps: seq<T.Step>, k: Text, j: nat)
    requires |steps| <= |staged| && j < |steps| && staged[j].kind == k && steps[j].commit.Some?
    ensures staged[j].name in X.Named(T.Deltas(staged, steps, k))
    ensures steps[j].edit.Some? ==> staged[j].name in X.Named(X.Moves(staged, steps, k))
    decreases |steps|
  {
    var n := |steps| - 1;
    var front, d, m := steps[..n], T.Deltas(staged, steps, k), X.Moves(staged, steps, k);
    if j < n {
      DeltaNamed(staged, front, k, j);
      assert forall x <- T.Deltas(staged, front, k) :: x in d;
      assert forall x <- X.Moves(staged, front, k) :: x in m;
    } else {
      assert d[|d| - 1] in d && (steps[j].edit.Some? ==> m[|m| - 1] in m);
    }
  }

  lemma OneAtEachName(staged: seq<T.Staged>, i: nat, j: nat)
    requires T.AllValid(staged) && T.DistinctTargets(staged) && i < |staged| && j < |staged|
    ensures staged[i].kind == staged[j].kind && staged[i].name == staged[j].name ==> i == j
  {
    assert staged[i].Valid() && staged[j].Valid();
    assert i < j ==> staged[i].Target() != staged[j].Target();
    assert j < i ==> staged[j].Target() != staged[i].Target();
  }

  /** An idle operation's name has a delta and no move. */
  lemma IdleUnmoved(e: Event, j: nat, k: Text)
    requires e.Submits? && Genuine(e) && T.DistinctTargets(e.staged) && j < |e.staged| && Idle(e, j, k)
    ensures e.staged[j].name in X.Named(T.Deltas(e.staged, e.trace.steps, k))
    ensures e.staged[j].name !in X.Named(X.Moves(e.staged, e.trace.steps, k))
  {
    DeltaNamed(e.staged, e.trace.steps, k, j);
    forall x <- X.Moves(e.staged, e.trace.steps, k) ensures x.0 != e.staged[j].name {
      var i := X.MoveFrom(e.staged, e.trace.steps, k, x);
      OneAtEachName(e.staged, i, j);
    }
  }

  lemma UndisturbedAt(e: Event, i: nat, p: Path)
    requires e.Submits? && Genuine(e) && T.DistinctTargets(e.staged) && i < |e.trace.kinds| && Undisturbed(e, i)
    requires p !in X.Named(X.Moves(e.staged, e.trace.steps, e.trace.kinds[i]))
    ensures var made, second := X.Written(e.staged, e.trace, i), Source(X.IndexedAt(e.trace, i).refs, e.trace.kinds[i]);
      (p in made <==> p in second) && (p in made && p in second ==> made[p] == second[p])
  {
    var k := e.trace.kinds[i];
    var first, deltas := Source(X.ListedAt(e.trace, i).refs, k), T.Deltas(e.staged, e.trace.steps, k);
    if p in X.Named(deltas) {
      var x :| x in deltas && x.0 == p;
      var j := X.DeltaFrom(e.staged, e.trace.steps, k, x);
      DeltaNamed(e.staged, e.trace.steps, k, j);
      DeltaStands(first, e.staged, e.trace.steps, k, j);
      assert Idle(e, j, k);
    } else {
      X.UpsertedOff(first, deltas);
    }
  }

  lemma UndisturbedBack(e: Event, i: nat)
    requires e.Submits? && Genuine(e) && T.DistinctTargets(e.staged) && i < |e.trace.kinds|
    requires X.SameOff(X.Written(e.staged, e.trace, i), Source(X.IndexedAt(e.trace, i).refs, e.trace.kinds[i]),
                       X.Named(X.Moves(e.staged, e.trace.steps, e.trace.kinds[i])))
    ensures Undisturbed(e, i)
  {
    var k := e.trace.kinds[i];
    var first, deltas := Source(X.ListedAt(e.trace, i).refs, k), T.Deltas(e.staged, e.trace.steps, k);
    X.UpsertedOff(first, deltas);
    MovesNamed(e.staged, e.trace.steps, k);
    forall j | 0 <= j < |e.staged| && Idle(e, j, k)
      ensures e.staged[j].name in Source(X.IndexedAt(e.trace, i).refs, k)
      ensures Source(X.IndexedAt(e.trace, i).refs, k)[e.staged[j].name] == e.trace.steps[j].commit.value
    {
      IdleUnmoved(e, j, k);
      DeltaStands(first, e.staged, e.trace.steps, k, j);
    }
  }

  lemma MovesNamed(staged: seq<T.Staged>, steps: seq<T.Step>, k: Text)
    requires |steps| <= |staged|
    ensures X.Named(X.Moves(staged, steps, k)) <= X.Named(T.Deltas(staged, steps, k))
  {
    forall p <- X.Named(X.Moves(staged, steps, k)) ensures p in X.Named(T.Deltas(staged, steps, k)) {
      var x :| x in X.Moves(staged, steps, k) && x.0 == p;
      var j := X.MoveFrom(staged, steps, k, x);
      DeltaNamed(staged, steps, k, j);
    }
  }

  /** Undisturbed is: what it writes is the entities of its second read with its own moves made. */
  lemma UndisturbedWrites(e: Event, i: nat)
    requires e.Submits? && Genuine(e) && T.DistinctTargets(e.staged) && i < |e.trace.kinds|
    ensures var k := e.trace.kinds[i];
      var second := Source(X.IndexedAt(e.trace, i).refs, k);
      Undisturbed(e, i) <==>
        X.Written(e.staged, e.trace, i) == T.Upserted(second, X.Moves(e.staged, e.trace.steps, k))
  {
    var k := e.trace.kinds[i];
    var first, second := Source(X.ListedAt(e.trace, i).refs, k), Source(X.IndexedAt(e.trace, i).refs, k);
    X.MovedAlike(first, second, e.staged, e.trace.steps, k);
    if Undisturbed(e, i) {
      forall p | p !in X.Named(X.Moves(e.staged, e.trace.steps, k))
        ensures var made := X.Written(e.staged, e.trace, i);
          (p in made <==> p in second) && (p in made && p in second ==> made[p] == second[p])
      {
        UndisturbedAt(e, i, p);
      }
    }
    if X.SameOff(X.Written(e.staged, e.trace, i), second, X.Named(X.Moves(e.staged, e.trace.steps, k))) {
      UndisturbedBack(e, i);
    }
  }

  /** The transaction lands at `before`, where the index of the kind agrees, as it did at its second read; and
      since that read names have only moved forward. */
  ghost predicate LandsForward(before: Refs, e: Event, i: nat) {
    && e.Submits? && Genuine(e) && T.DistinctTargets(e.staged)
    && X.LandsOver(before, e.staged, e.message, e.trace, i) && X.AgreedAt(e.trace, i)
    && Forward(Source(X.IndexedAt(e.trace, i).refs, e.trace.kinds[i]), Source(before, e.trace.kinds[i]))
  }

  /** Nothing that moves a name finds its own commit there already. */
  lemma MoveNotYet(before: Refs, e: Event, k: Text, j: nat, second: map<Path, Object>)
    requires e.Submits? && Genuine(e) && ApplyBatch(before, T.WholeBatch(e.staged, e.trace)).Ok? && ValidSegment(k)
    requires j < |e.staged| && e.staged[j].kind == k && e.trace.steps[j].edit.Some? && e.trace.steps[j].commit.Some?
    requires Forward(second, Source(before, k))
    ensures e.staged[j].name in second ==> second[e.staged[j].name] != e.trace.steps[j].commit.value
  {
    var s, step, a := e.staged[j], e.trace.steps[j], e.trace.staging[j];
    T.StagedIs(e.staged, e.message, e.trace.staging, e.trace.steps, j);
    T.StagedFor(s, e.message, Read(a.refs, s.Target()), a.stamp);
    T.StagedParent(s, e.message, Read(a.refs, s.Target()), a.stamp);
    NoFailure(before, T.WholeBatch(e.staged, e.trace));
    T.InEdits(e.trace.steps, j);
    assert step.edit.value in T.WholeBatch(e.staged, e.trace) && Holds(before, step.edit.value);
    SourceMember(before, k, s.name);
    if step.edit.value.Update? { ChildAbove(step.edit.value.target); }
  }

  lemma SomeMove(moves: Index.Listed)
    ensures moves != [] ==> exists x :: x in moves
  {
    if moves != [] { assert moves[0] in moves; }
  }

  /** A transaction that moves a name of the kind writes its index. */
  lemma MovesWriteIndex(before: Refs, e: Event, i: nat)
    requires LandsForward(before, e, i) && !X.WritesIndex(e.staged, e.trace, i)
    ensures X.Moves(e.staged, e.trace.steps, e.trace.kinds[i]) == []
    ensures X.Written(e.staged, e.trace, i) == Source(X.IndexedAt(e.trace, i).refs, e.trace.kinds[i])
  {
    var k, first, c := e.trace.kinds[i], X.ListedAt(e.trace, i), X.IndexedAt(e.trace, i);
    var made := X.Written(e.staged, e.trace, i);
    EditShape(k, Read(c.refs, IndexRef(k)), made);
    X.FitAfter(before, e.staged, e.trace.steps, first, k);
    if made != Source(c.refs, k) { Index.IndexesDiffer(made, Source(c.refs, k)); }
    forall x <- X.Moves(e.staged, e.trace.steps, k) ensures false {
      var j := X.MoveFrom(e.staged, e.trace.steps, k, x);
      DeltaStands(Source(first.refs, k), e.staged, e.trace.steps, k, j);
      assert k in e.trace.kinds;
      X.TouchedValid(e.staged, e.message, e.trace, k);
      MoveNotYet(before, e, k, j, Source(c.refs, k));
    }
    var moves := X.Moves(e.staged, e.trace.steps, k);
    SomeMove(moves);
  }

  /** Landing forward over an agreeing index, exactly: it agrees afterwards if and only if the transaction was
      not disturbed between its two reads. */
  lemma LandsUndisturbed(before: Refs, e: Event, i: nat)
    requires LandsForward(before, e, i)
    ensures Agrees(Publish(before, T.WholeBatch(e.staged, e.trace)), e.trace.kinds[i]) <==> Undisturbed(e, i)
  {
    hide Undisturbed, T.Upserted, T.Deltas, X.Moves, X.Written, T.WholeBatch, Publish, Agrees, X.WritesIndex;
    var k := e.trace.kinds[i];
    assert k in e.trace.kinds;
    X.TouchedValid(e.staged, e.message, e.trace, k);
    X.LandedIndex(before, e.staged, e.message, e.trace, i);
    X.LandedLeaves(before, e.staged, e.message, e.trace, k);
    UndisturbedWrites(e, i);
    X.LastUpserted(Source(X.IndexedAt(e.trace, i).refs, k), X.Moves(e.staged, e.trace.steps, k));
    if X.WritesIndex(e.staged, e.trace, i) {
      X.UnmovedSinceIndex(before, e.staged, e.message, e.trace, i);
    } else {
      MovesWriteIndex(before, e, i);
    }
  }

  // ---- whole runs ----

  /** Where in a run each access of each transaction takes place: before which event. */
  type Places = seq<seq<nat>>

  function Accesses(e: Event): seq<Access> {
    if e.Submits? then e.trace.staging + e.trace.indexing else []
  }

  /** The accesses of `e` are steps of the run `front` before it: made one after another, at the places `at`,
      and each of the refs as they then stand. */
  ghost predicate MadeIn(s: State, front: seq<Event>, e: Event, at: seq<nat>)
    requires WellFormed(s) && AllGenuine(front)
  {
    && |at| == |Accesses(e)|
    && (forall i, j :: 0 <= i < j < |at| ==> at[i] <= at[j])
    && forall j :: 0 <= j < |at| ==> at[j] <= |front| && Accesses(e)[j].refs == Play(s, front[..at[j]]).refs
  }

  ghost predicate ReadInRun(s: State, events: seq<Event>, at: Places)
    requires WellFormed(s) && AllGenuine(events)
  {
    |at| == |events| && forall n :: 0 <= n < |events| ==> MadeIn(s, events[..n], events[n], at[n])
  }

  ghost predicate NoneTwice(events: seq<Event>)
    requires AllGenuine(events)
  {
    forall n :: 0 <= n < |events| && events[n].Submits? ==> T.DistinctTargets(events[n].staged)
  }

  /** This event keeps the index of the kind: a publication or deletion that lands moves an entity ref; a
      transaction that lands and touches the kind was undisturbed. */
  ghost predicate Keeps(s: State, e: Event, k: Text)
    requires WellFormed(s) && Genuine(e)
  {
    && (e.Steps? ==> !KindRuns.LandsWithoutEntity(s, e.l, k))
    && (M.Submitted(s, e) ==> forall i :: 0 <= i < |e.trace.kinds| && e.trace.kinds[i] == k ==> Undisturbed(e, i))
  }

  ghost predicate AlwaysKeeps(s: State, events: seq<Event>, k: Text)
    requires WellFormed(s) && AllGenuine(events)
  {
    events != [] ==>
      var n := |events| - 1;
      AlwaysKeeps(s, events[..n], k) && Keeps(Play(s, events[..n]), events[n], k)
  }

  lemma PrefixRead(s: State, events: seq<Event>, at: Places)
    requires WellFormed(s) && AllGenuine(events) && events != [] && ReadInRun(s, events, at)
    ensures ReadInRun(s, events[..|events| - 1], at[..|events| - 1])
  {
    hide MadeIn, Genuine;
    var n := |events| - 1;
    forall m | 0 <= m < n ensures MadeIn(s, events[..n][..m], events[m], at[m]) {
      assert events[..n][..m] == events[..m];
    }
  }

  lemma {:induction false} AgreedThen(s: State, events: seq<Event>, k: Text, p: nat)
    requires WellFormed(s) && AllGenuine(events) && M.AlwaysAgreeing(s, events, k) && p <= |events|
    ensures Agrees(Play(s, events[..p]).refs, k)
  {
    if p < |events| {
      var n := |events| - 1;
      AgreedThen(s, events[..n], k, p);
      assert events[..n][..p] == events[..p];
    } else {
      assert events[..p] == events;
    }
  }

  lemma {:induction false} NeverStrayed(s: State, events: seq<Event>, p: nat)
    requires WellFormed(s) && AllGenuine(events) && NeverStrays(s, events) && p <= |events|
    ensures NeverStrays(s, events[..p])
  {
    if p < |events| {
      var n := |events| - 1;
      NeverStrayed(s, events[..n], p);
      assert events[..n][..p] == events[..p];
    } else {
      assert events[..p] == events;
    }
  }

  lemma WitnessEvent(s: State, e: Event, k: Text)
    requires Inv(s) && Genuine(e) && ValidSegment(k) && Agrees(s.refs, k) && KindRuns.Witness(s, k) && !StraysAt(s, e)
    ensures KindRuns.Witness(Happen(s, e), k)
  {
    if e.Steps? {
      KindRuns.WitnessStep(s, e.l, k);
    } else {
      EventForward(s, e);
      var t := Happen(s, e);
      forall i | 0 <= i < |t.clients| && t.clients[i].op.kind == k
        ensures KindRuns.WitnessOk(t.clients[i], Source(t.refs, k))
      {
        KindRuns.WitnessStable(s.clients[i], Source(s.refs, k), Source(t.refs, k));
      }
    }
  }

  lemma {:induction false} MixedWitness(s: State, events: seq<Event>, k: Text)
    requires Initial(s) && AllGenuine(events) && NeverStrays(s, events)
    requires ValidSegment(k) && M.AlwaysAgreeing(s, events, k)
    ensures KindRuns.Witness(Play(s, events), k)
  {
    if events == [] {
      forall i | 0 <= i < |s.clients| ensures s.clients[i].phase == AtRef { assert s.clients[i] in s.clients; }
    } else {
      var n := |events| - 1;
      MixedWitness(s, events[..n], k);
      PlayInv(s, events[..n]);
      WitnessEvent(Play(s, events[..n]), events[n], k);
    }
  }

  /** What a transaction's access met was a state of the run: the index agreed there, its names can be indexed,
      and names have only moved forward since. */
  lemma AccessInRun(s: State, events: seq<Event>, k: Text, p: nat, refs: Refs)
    requires Initial(s) && AllGenuine(events) && NeverStrays(s, events) && p <= |events|
    requires ValidSegment(k) && M.AlwaysAgreeing(s, events, k) && refs == Play(s, events[..p]).refs
    ensures Agrees(refs, k) && Index.AllIndexable(Source(refs, k))
    ensures Forward(Source(refs, k), Source(Play(s, events).refs, k))
  {
    AgreedThen(s, events, k, p);
    NeverStrayed(s, events, p);
    PlayInv(s, events[..p]);
    FastForwardAmongOthers(s, events, p, k);
  }

  lemma IndexReads(s: State, front: seq<Event>, e: Event, at: seq<nat>, i: nat)
    requires Initial(s) && AllGenuine(front) && NeverStrays(s, front)
    requires e.Submits? && Genuine(e) && i < |e.trace.kinds| && MadeIn(s, front, e, at)
    requires ValidSegment(e.trace.kinds[i]) && M.AlwaysAgreeing(s, front, e.trace.kinds[i])
    ensures X.AgreedAt(e.trace, i)
    ensures Index.AllIndexable(Source(X.ListedAt(e.trace, i).refs, e.trace.kinds[i]))
    ensures var k := e.trace.kinds[i]; Forward(Source(X.IndexedAt(e.trace, i).refs, k), Source(Play(s, front).refs, k))
  {
    hide Play, NeverStrays, M.AlwaysAgreeing, T.Prepared;
    var k, f := e.trace.kinds[i], |e.trace.staging| + 2 * i;
    assert |e.trace.indexing| == 2 * |e.trace.kinds| by { PreparedShape(e); }
    assert Accesses(e)[f] == X.ListedAt(e.trace, i) && Accesses(e)[f + 1] == X.IndexedAt(e.trace, i);
    AccessInRun(s, front, k, at[f], X.ListedAt(e.trace, i).refs);
    AccessInRun(s, front, k, at[f + 1], X.IndexedAt(e.trace, i).refs);
  }

  lemma PreparedShape(e: Event)
    requires e.Submits? && Genuine(e)
    ensures |e.trace.indexing| == 2 * |e.trace.kinds| && T.Rising(e.trace.kinds)
  {
  }

  /** So it lands as a transaction that disturbs nothing behind it. */
  lemma SubmitLandsForward(s: State, front: seq<Event>, e: Event, at: seq<nat>, i: nat)
    requires Initial(s) && AllGenuine(front) && NeverStrays(s, front)
    requires e.Submits? && Genuine(e) && T.DistinctTargets(e.staged) && MadeIn(s, front, e, at)
    requires M.Submitted(Play(s, front), e) && i < |e.trace.kinds|
    requires ValidSegment(e.trace.kinds[i]) && M.AlwaysAgreeing(s, front, e.trace.kinds[i])
    ensures LandsForward(Play(s, front).refs, e, i)
  {
    IndexReads(s, front, e, at, i);
    PlayInv(s, front);
    hide Play, NeverStrays, T.WholeBatch, T.Prepared, Inv, MadeIn;
    assert Agrees(Play(s, front).refs, e.trace.kinds[i]);
    assert X.FitsIndex(Play(s, front).refs, e.staged, X.ListedAt(e.trace, i), e.trace.kinds[i]) by {
      InvFits(Play(s, front), e.trace.kinds[i]);
    }
  }

  lemma InvFits(s: State, k: Text)
    requires Inv(s) && ValidSegment(k)
    ensures Index.AllIndexable(Source(s.refs, k))
  {
  }

  lemma SubmittedLeaves(m: State, e: Event)
    requires WellFormed(m) && Genuine(e) && M.Submitted(m, e)
    ensures Happen(m, e).refs == Publish(m.refs, T.WholeBatch(e.staged, e.trace))
  {
  }

  lemma KeepsAt(m: State, e: Event, k: Text)
    requires WellFormed(m) && Genuine(e) && M.Submitted(m, e) && ValidSegment(k) && Agrees(m.refs, k)
    requires forall i :: 0 <= i < |e.trace.kinds| && e.trace.kinds[i] == k ==> LandsForward(m.refs, e, i)
    ensures Agrees(Happen(m, e).refs, k) <==> Keeps(m, e, k)
  {
    hide Happen, T.WholeBatch, Publish, Agrees, Undisturbed, LandsForward, ApplyBatch, Genuine;
    SubmittedLeaves(m, e);
    assert T.Rising(e.trace.kinds) by { PreparedShape(e); }
    if k in e.trace.kinds {
      var i :| 0 <= i < |e.trace.kinds| && e.trace.kinds[i] == k;
      LandsUndisturbed(m.refs, e, i);
      assert forall j :: 0 <= j < |e.trace.kinds| && e.trace.kinds[j] == k ==> j == i by {
        T.RisingDistinct(e.trace.kinds);
      }
    } else {
      M.Untouched(m.refs, e, k);
    }
  }

  lemma SubmitKeeps(s: State, front: seq<Event>, e: Event, at: seq<nat>, k: Text)
    requires Initial(s) && AllGenuine(front) && NeverStrays(s, front)
    requires Genuine(e) && e.Submits? && T.DistinctTargets(e.staged) && MadeIn(s, front, e, at)
    requires M.Submitted(Play(s, front), e) && ValidSegment(k) && M.AlwaysAgreeing(s, front, k)
    ensures Agrees(Happen(Play(s, front), e).refs, k) <==> Keeps(Play(s, front), e, k)
  {
    hide Play, Happen, NeverStrays, T.WholeBatch, Agrees, MadeIn, LandsForward, Keeps, Genuine;
    var m := Play(s, front);
    forall i | 0 <= i < |e.trace.kinds| && e.trace.kinds[i] == k ensures LandsForward(m.refs, e, i) {
      SubmitLandsForward(s, front, e, at, i);
    }
    KeepsAt(m, e, k);
  }

  lemma StepKeeps(s: State, front: seq<Event>, e: Event, k: Text)
    requires Initial(s) && AllGenuine(front) && NeverStrays(s, front) && e.Steps? && !StraysAt(Play(s, front), e)
    requires ValidSegment(k) && M.AlwaysAgreeing(s, front, k)
    ensures Agrees(Happen(Play(s, front), e).refs, k) <==> Keeps(Play(s, front), e, k)
  {
    PlayInv(s, front);
    MixedWitness(s, front, k);
    KindRuns.AgreementStep(Play(s, front), e.l, k);
  }

  /** One event after a run that has agreed so far. */
  lemma EventKeeps(s: State, front: seq<Event>, e: Event, at: seq<nat>, k: Text)
    requires Initial(s) && AllGenuine(front) && NeverStrays(s, front)
    requires Genuine(e) && !StraysAt(Play(s, front), e) && (e.Submits? ==> T.DistinctTargets(e.staged))
    requires MadeIn(s, front, e, at) && ValidSegment(k) && M.AlwaysAgreeing(s, front, k)
    ensures Agrees(Happen(Play(s, front), e).refs, k) <==> Keeps(Play(s, front), e, k)
  {
    if e.Steps? {
      StepKeeps(s, front, e, k);
    } else if M.Submitted(Play(s, front), e) {
      SubmitKeeps(s, front, e, at, k);
    }
  }

  /** Index agreement among publishers, deleters and transactions that read the run they write to, exactly:
      started in agreement, while no publication strays and no transaction names one ref twice, the index
      agrees in every state if and only if every publication that lands a batch moves an entity ref, and nobody
      disturbs a transaction that lands between its reading of the listing and its reading of the index. */
  lemma {:induction false} AgreementByReads(s: State, events: seq<Event>, at: Places, k: Text)
    requires Initial(s) && AllGenuine(events) && NoneTwice(events) && ReadInRun(s, events, at)
    requires NeverStrays(s, events) && ValidSegment(k) && Agrees(s.refs, k)
    ensures M.AlwaysAgreeing(s, events, k) <==> AlwaysKeeps(s, events, k)
  {
    if events != [] {
      var n := |events| - 1;
      PrefixRead(s, events, at);
      AgreementByReads(s, events[..n], at[..n], k);
      if M.AlwaysAgreeing(s, events[..n], k) {
        hide MadeIn, Keeps, Agrees;
        EventKeeps(s, events[..n], events[n], at[n], k);
      }
    }
  }
}
