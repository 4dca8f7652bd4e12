/** What every interleaved run of publishers and deleters keeps (`git-store/src/kind.rs`). */
module KindRuns {
  import opened Wrappers
  import opened Order
  import opened Objects
  import opened RefStore
  import opened Names
  import opened Layout
  import opened IndexCodec
  import opened Kind
  import Index

  /** Client `l.client` lands a batch at this step. */
  ghost predicate Lands(s: State, l: Label) {
    && l.client < |s.clients| && !l.fails
    && var c := s.clients[l.client];
    && c.op.name != [] && c.phase.AtApply?
    && Batch(c.op, c.phase.resolved, c.phase.index, c.phase.source) != []
    && ApplyBatch(s.refs, Batch(c.op, c.phase.resolved, c.phase.index, c.phase.source)).Ok?
  }

  /** The landed batch belongs to a republish that moves no entity ref: it carries only an index edit. */
  ghost predicate LandsWithoutEntity(s: State, l: Label, kind: Text) {
    Lands(s, l) && s.clients[l.client].op.kind == kind && s.clients[l.client].phase.resolved.edit == None
  }

  /** The landed batch displaces a commit that the new one does not reach: an explicit parent from
      somewhere else. */
  ghost predicate Strays(s: State, l: Label) {
    Lands(s, l) && !Climbs(s.clients[l.client].op, s.clients[l.client].phase.resolved)
  }

  // ---- one step ----

  lemma MovedForward(op: Operation, r: Resolved, entities: map<Path, Object>)
    requires op.name != [] && ResolvedOk(op, r, entities)
    requires r.edit.Some? && r.edit.value.Create? ==> op.name !in entities
    requires r.edit.Some? && r.edit.value.Update? ==> entities[op.name] == r.edit.value.expected
    ensures var after := if r.edit.Some? then entities[op.name := r.commit] else entities;
      && (Forward(entities, after) <==> Climbs(op, r))
      && op.name in after && Reaches(after[op.name], r.commit)
  {
    if r.edit.Some? && r.edit.value.Update? { ClimbsReaches(op, r, entities); }
  }

  /** What a landed batch does to its kind is forward exactly when it climbs; no other kind moves. */
  lemma LandedForward(refs: Refs, op: Operation, r: Resolved, index: Option<Object>, source: map<Path, Object>, k: Text)
    requires ValidSegment(op.kind) && ValidPath(op.name) && ValidSegment(k)
    requires ResolvedOk(op, r, Source(refs, op.kind))
    requires ApplyBatch(refs, Batch(op, r, index, source)).Ok?
    ensures var after := ApplyBatch(refs, Batch(op, r, index, source)).value;
      && (Forward(Source(refs, op.kind), Source(after, op.kind)) <==> Climbs(op, r))
      && (k != op.kind ==> Source(after, k) == Source(refs, k))
      && op.name in Source(after, op.kind) && Reaches(Source(after, op.kind)[op.name], r.commit)
  {
    BatchEffect(refs, op, r, index, source, k);
    SourceMember(refs, op.kind, op.name);
    MovedForward(op, r, Source(refs, op.kind));
  }

  lemma ReadingStep(refs: Refs, c: Client, stamp: int)
    requires ValidSegment(c.op.kind) && ValidPath(c.op.name) && !c.phase.AtApply?
    requires ClientOk(c, Source(refs, c.op.kind))
    ensures Advance(refs, c, stamp).0 == refs
    ensures ClientOk(c.(phase := Advance(refs, c, stamp).1), Source(refs, c.op.kind))
  {
    if c.phase.AtRef? { ResolveOk(c.op, refs, stamp); }
    if c.phase.AtSource? {
      var source := Source(refs, c.op.kind);
      if Batch(c.op, c.phase.resolved, c.phase.index, source) == [] { assert c.phase.resolved.edit == None; }
    }
  }

  lemma ApplyingStep(refs: Refs, c: Client, stamp: int)
    requires ValidSegment(c.op.kind) && ValidPath(c.op.name) && c.phase.AtApply?
    requires ClientOk(c, Source(refs, c.op.kind))
    ensures ClientOk(c.(phase := Advance(refs, c, stamp).1), Source(Advance(refs, c, stamp).0, c.op.kind))
  {
    var r, index, source := c.phase.resolved, c.phase.index, c.phase.source;
    if ApplyBatch(refs, Batch(c.op, r, index, source)).Ok? {
      LandedForward(refs, c.op, r, index, source, c.op.kind);
      if c.op.DeleteName? { assert r.edit.value.Update?; }
    }
  }

  lemma AdvanceNames(refs: Refs, c: Client, stamp: int, k: Text, p: Path)
    requires ValidSegment(c.op.kind) && Indexable(c.op.name) && ValidSegment(k)
    requires ClientOk(c, Source(refs, c.op.kind))
    requires p in Source(Advance(refs, c, stamp).0, k)
    ensures p in Source(refs, k) || p == c.op.name
  {
    if c.phase.AtApply? {
      var r, index, source := c.phase.resolved, c.phase.index, c.phase.source;
      if ApplyBatch(refs, Batch(c.op, r, index, source)).Ok? {
        BatchEffect(refs, c.op, r, index, source, k);
      }
    } else {
      ReadingStep(refs, c, stamp);
    }
  }

  lemma StepKeepsClient(s: State, l: Label, i: nat)
    requires Inv(s) && l.client < |s.clients| && i < |s.clients|
    requires Forward(Source(s.refs, s.clients[i].op.kind), Source(Next(s, l).refs, s.clients[i].op.kind))
    ensures ClientOk(Next(s, l).clients[i], Source(Next(s, l).refs, s.clients[i].op.kind))
  {
    var c := s.clients[i];
    assert c in s.clients && ClientOk(c, Source(s.refs, c.op.kind));
    if i == l.client {
      if c.phase.AtApply? { ApplyingStep(s.refs, c, l.stamp); } else { ReadingStep(s.refs, c, l.stamp); }
    } else {
      ClientStable(c, Source(s.refs, c.op.kind), Source(Next(s, l).refs, c.op.kind));
    }
  }

  lemma OnlyLandingsMove(s: State, l: Label)
    requires WellFormed(s) && !Lands(s, l)
    ensures Next(s, l).refs == s.refs
  {
    if l.client < |s.clients| && !l.fails && s.clients[l.client].phase.AtApply? {
      var c := s.clients[l.client];
      assert c in s.clients;
      var batch := Batch(c.op, c.phase.resolved, c.phase.index, c.phase.source);
      if batch == [] {
        assert ApplyBatch(s.refs, batch) == Ok(s.refs);
      }
    }
  }

  /** Every kind moves forward from `a` to `b`. */
  ghost predicate AllForward(a: Refs, b: Refs) {
    forall k: Text :: ValidSegment(k) ==> Forward(Source(a, k), Source(b, k))
  }

  /** One step moves every kind forward exactly when it does not stray. */
  lemma StepForward(s: State, l: Label)
    requires Inv(s)
    ensures AllForward(s.refs, Next(s, l).refs) <==> !Strays(s, l)
  {
    if Lands(s, l) {
      var c := s.clients[l.client];
      assert c in s.clients && ClientOk(c, Source(s.refs, c.op.kind));
      forall k: Text | ValidSegment(k)
        ensures Forward(Source(s.refs, c.op.kind), Source(Next(s, l).refs, c.op.kind)) <==> !Strays(s, l)
        ensures k != c.op.kind ==> Source(Next(s, l).refs, k) == Source(s.refs, k)
      {
        LandedForward(s.refs, c.op, c.phase.resolved, c.phase.index, c.phase.source, k);
      }
    } else {
      OnlyLandingsMove(s, l);
    }
  }

  lemma StepNames(s: State, l: Label, k: Text, p: Path)
    requires Inv(s) && ValidSegment(k) && p in Source(Next(s, l).refs, k)
    ensures Indexable(p)
  {
    if Lands(s, l) {
      var c := s.clients[l.client];
      assert c in s.clients && ClientOk(c, Source(s.refs, c.op.kind));
      AdvanceNames(s.refs, c, l.stamp, k, p);
    } else {
      OnlyLandingsMove(s, l);
    }
  }

  lemma NextMoves(s: State, l: Label)
    requires Inv(s) && !Strays(s, l)
    ensures Inv(Next(s, l)) && AllForward(s.refs, Next(s, l).refs)
  {
    var t := Next(s, l);
    StepForward(s, l);
    NextWellFormed(s, l);
    if l.client < |s.clients| {
      forall d <- t.clients ensures ClientOk(d, Source(t.refs, d.op.kind)) {
        var i :| 0 <= i < |t.clients| && t.clients[i] == d;
        assert s.clients[i] in s.clients && s.clients[i].op == d.op;
        StepKeepsClient(s, l, i);
      }
    }
    forall k: Text, p | ValidSegment(k) && p in Source(t.refs, k) ensures Indexable(p) { StepNames(s, l, k, p); }
  }

  // ---- fast-forward ----

  ghost predicate NeverStrays(s: State, labels: seq<Label>)
    requires WellFormed(s)
  {
    labels != [] ==>
      NeverStrays(s, labels[..|labels| - 1]) && !Strays(Exec(s, labels[..|labels| - 1]), labels[|labels| - 1])
  }

  /** Every step of the run moves every kind forward. */
  ghost predicate AlwaysForward(s: State, labels: seq<Label>)
    requires WellFormed(s)
  {
    labels != [] ==>
      && AlwaysForward(s, labels[..|labels| - 1])
      && AllForward(Exec(s, labels[..|labels| - 1]).refs, Exec(s, labels).refs)
  }

  lemma {:induction false} ExecInv(s: State, labels: seq<Label>)
    requires Initial(s) && NeverStrays(s, labels)
    ensures Inv(Exec(s, labels))
  {
    if labels != [] {
      ExecInv(s, labels[..|labels| - 1]);
      NextMoves(Exec(s, labels[..|labels| - 1]), labels[|labels| - 1]);
    }
  }

  /** Fast-forward, exactly: every step of a run moves every kind forward if and only if every update
      that lands with an explicit parent has that parent above the commit it displaces. */
  lemma {:induction false} ForwardExactly(s: State, labels: seq<Label>)
    requires Initial(s)
    ensures AlwaysForward(s, labels) <==> NeverStrays(s, labels)
  {
    if labels != [] {
      var front := labels[..|labels| - 1];
      ForwardExactly(s, front);
      if NeverStrays(s, front) {
        ExecInv(s, front);
        StepForward(Exec(s, front), labels[|labels| - 1]);
      }
    }
  }

  lemma CheckedStep(s: State, l: Label)
    requires Inv(s) && forall c <- s.clients :: ParentChecked(c.op)
    ensures !Strays(s, l)
  {
    if Lands(s, l) {
      var c := s.clients[l.client];
      assert c in s.clients && ClientOk(c, Source(s.refs, c.op.kind));
      CheckedClimbs(c.op, c.phase.resolved, Source(s.refs, c.op.kind));
    }
  }

  /** No run strays whose clients give no parent, or with it an expectation the parent is above. */
  lemma {:induction false} CheckedNeverStrays(s: State, labels: seq<Label>)
    requires Initial(s) && forall c <- s.clients :: ParentChecked(c.op)
    ensures NeverStrays(s, labels)
  {
    if labels != [] {
      var front := labels[..|labels| - 1];
      CheckedNeverStrays(s, front);
      ExecInv(s, front);
      var m := Exec(s, front);
      forall c <- m.clients ensures ParentChecked(c.op) {
        var i :| 0 <= i < |m.clients| && m.clients[i] == c;
        assert s.clients[i] in s.clients;
      }
      CheckedStep(m, labels[|labels| - 1]);
    }
  }

  /** What every finished client was told holds of the refs. */
  ghost predicate Truthful(s: State) {
    forall c <- s.clients :: c.phase.Done? ==> OutcomeOk(c.op, c.phase.outcome, Source(s.refs, c.op.kind))
  }

  lemma InvTruthful(s: State)
    requires Inv(s)
    ensures Truthful(s)
  {
    forall c <- s.clients | c.phase.Done? ensures OutcomeOk(c.op, c.phase.outcome, Source(s.refs, c.op.kind)) {
      assert ClientOk(c, Source(s.refs, c.op.kind));
    }
  }

  /** In every run that never strays, every commit a name ever held stays on the first-parent walk from
      its tip, and what a client was told it published or deleted stays there too. */
  lemma {:induction false} FastForwardOnly(s: State, labels: seq<Label>, i: nat, k: Text)
    requires Initial(s) && NeverStrays(s, labels) && i <= |labels| && ValidSegment(k)
    ensures Forward(Source(Exec(s, labels[..i]).refs, k), Source(Exec(s, labels).refs, k))
    ensures Truthful(Exec(s, labels))
  {
    ExecInv(s, labels);
    InvTruthful(Exec(s, labels));
    if i < |labels| {
      var front := labels[..|labels| - 1];
      FastForwardOnly(s, front, i, k);
      assert front[..i] == labels[..i];
      ExecInv(s, front);
      NextMoves(Exec(s, front), labels[|labels| - 1]);
      ForwardTransitive(Source(Exec(s, labels[..i]).refs, k), Source(Exec(s, front).refs, k),
                        Source(Exec(s, labels).refs, k));
    } else {
      assert labels[..i] == labels;
    }
  }

  // ---- index agreement ----

  /** While every state so far agrees, the index a client read decodes to the entities of that moment,
      so it lies behind the listing read later. */
  ghost predicate WitnessOk(c: Client, entities: map<Path, Object>) {
    match c.phase
    case AtSource(_, index) => Forward(Index.IndexMap(index), entities)
    case AtApply(_, index, source) => Forward(Index.IndexMap(index), source)
    case _ => true
  }

  ghost predicate Witness(s: State, k: Text) {
    forall i :: 0 <= i < |s.clients| && s.clients[i].op.kind == k ==> WitnessOk(s.clients[i], Source(s.refs, k))
  }

  lemma WitnessStable(c: Client, a: map<Path, Object>, b: map<Path, Object>)
    requires WitnessOk(c, a) && Forward(a, b)
    ensures WitnessOk(c, b)
  {
    if c.phase.AtSource? { ForwardTransitive(Index.IndexMap(c.phase.index), a, b); }
  }

  lemma ApplyPhase(refs: Refs, c: Client, stamp: int)
    requires c.op.name != [] && (c.phase.AtRef? || c.phase.AtApply? || c.phase.Done?)
    ensures var phase := Advance(refs, c, stamp).1; !phase.AtSource? && !phase.AtApply?
  {
  }

  lemma WitnessRead(refs: Refs, c: Client, r: Resolved)
    requires Agrees(refs, c.op.kind) && forall p <- Source(refs, c.op.kind) :: Indexable(p)
    ensures WitnessOk(c.(phase := AtSource(r, Read(refs, IndexRef(c.op.kind)))), Source(refs, c.op.kind))
  {
    var entities := Source(refs, c.op.kind);
    Index.IndexMapOfValue(entities);
    assert Forward(entities, entities);
  }

  lemma WitnessAdvance(refs: Refs, c: Client, stamp: int)
    requires c.op.name != [] && Agrees(refs, c.op.kind)
    requires forall p <- Source(refs, c.op.kind) :: Indexable(p)
    requires WitnessOk(c, Source(refs, c.op.kind))
    ensures WitnessOk(c.(phase := Advance(refs, c, stamp).1), Source(Advance(refs, c, stamp).0, c.op.kind))
  {
    match c.phase
    case AtIndex(r) => WitnessRead(refs, c, r);
    case AtSource(r, index) =>
      var phase := Advance(refs, c, stamp).1;
      assert phase.Done? || phase == AtApply(r, index, Source(refs, c.op.kind));
    case _ => ApplyPhase(refs, c, stamp);
  }

  lemma WitnessStep(s: State, l: Label, k: Text)
    requires Inv(s) && ValidSegment(k) && Agrees(s.refs, k) && Witness(s, k) && !Strays(s, l)
    ensures Witness(Next(s, l), k)
  {
    var t := Next(s, l);
    NextMoves(s, l);
    forall i | 0 <= i < |t.clients| && t.clients[i].op.kind == k ensures WitnessOk(t.clients[i], Source(t.refs, k)) {
      assert WitnessOk(s.clients[i], Source(s.refs, k));
      assert s.clients[i] in s.clients;
      if i != l.client {
        WitnessStable(s.clients[i], Source(s.refs, k), Source(t.refs, k));
      } else {
        WitnessAdvance(s.refs, s.clients[i], l.stamp);
      }
    }
  }

  /** The index still holds what was read of it, so nothing moved since: the listing read is current. */
  lemma UnmovedListing(refs: Refs, kind: Text, index: Option<Object>, source: map<Path, Object>)
    requires forall p <- Source(refs, kind) :: Indexable(p)
    requires Agrees(refs, kind) && Read(refs, IndexRef(kind)) == index
    requires Forward(Index.IndexMap(index), source) && Forward(source, Source(refs, kind))
    ensures source == Source(refs, kind)
  {
    Index.IndexMapOfValue(Source(refs, kind));
    ForwardAntisymmetric(source, Source(refs, kind));
  }

  lemma NextIndexable(source: map<Path, Object>, entities: map<Path, Object>, name: Path, commit: Object)
    requires Forward(source, entities) && Indexable(name) && forall p <- entities :: Indexable(p)
    ensures forall p <- source[name := commit] :: Indexable(p)
  {
  }

  /** The index read already named the new commit; then the ref is past the edit's expectation. */
  lemma AlreadyIndexed(op: Operation, r: Resolved, source: map<Path, Object>, entities: map<Path, Object>)
    requires Indexable(op.name) && (forall p <- entities :: Indexable(p))
    requires ResolvedOk(op, r, entities) && r.edit.Some? && Climbs(op, r)
    requires var index := Index.IndexValue(source[op.name := r.commit]);
      Forward(Index.IndexMap(index), source) && Forward(source, entities)
    ensures op.name in entities && !(r.edit.value.Update? && entities[op.name] == r.edit.value.expected)
  {
    var next := source[op.name := r.commit];
    NextIndexable(source, entities, op.name, r.commit);
    Index.IndexMapOfValue(next);
    ForwardTransitive(next, source, entities);
    assert op.name in next && Reaches(entities[op.name], r.commit);
    if r.edit.value.Update? { ClimbsReaches(op, r, entities); }
  }

  /** Where a landed batch of the kind leaves an agreeing index: in agreement when it moves an entity
      ref, and out of agreement when it moves none. */
  lemma LandingAgreement(refs: Refs, op: Operation, r: Resolved, index: Option<Object>, source: map<Path, Object>)
    requires ValidSegment(op.kind) && Indexable(op.name)
    requires forall p <- Source(refs, op.kind) :: Indexable(p)
    requires ResolvedOk(op, r, Source(refs, op.kind)) && Agrees(refs, op.kind) && Climbs(op, r)
    requires Forward(Index.IndexMap(index), source) && Forward(source, Source(refs, op.kind))
    requires Batch(op, r, index, source) != [] && ApplyBatch(refs, Batch(op, r, index, source)).Ok?
    ensures Agrees(ApplyBatch(refs, Batch(op, r, index, source)).value, op.kind) <==> r.edit.Some?
  {
    var next := source[op.name := r.commit];
    BatchEffect(refs, op, r, index, source, op.kind);
    EditShape(op.kind, index, next);
    if IndexEdit(op.kind, index, next).Some? {
      UnmovedListing(refs, op.kind, index, source);
      if r.edit == None {
        NextIndexable(source, source, op.name, r.commit);
        Index.IndexMapOfValue(source);
        Index.IndexMapOfValue(next);
      }
    } else {
      AlreadyIndexed(op, r, source, Source(refs, op.kind));
      SourceMember(refs, op.kind, op.name);
      assert false;
    }
  }

  lemma LandedAgreement(s: State, l: Label, k: Text)
    requires Inv(s) && ValidSegment(k) && Agrees(s.refs, k) && Witness(s, k) && Lands(s, l) && !Strays(s, l)
    ensures Agrees(Next(s, l).refs, k) <==> !LandsWithoutEntity(s, l, k)
  {
    var c := s.clients[l.client];
    assert c in s.clients && ClientOk(c, Source(s.refs, c.op.kind));
    if c.op.kind == k {
      assert WitnessOk(c, Source(s.refs, k));
      LandingAgreement(s.refs, c.op, c.phase.resolved, c.phase.index, c.phase.source);
    } else {
      BatchEffect(s.refs, c.op, c.phase.resolved, c.phase.index, c.phase.source, k);
    }
  }

  lemma AgreementStep(s: State, l: Label, k: Text)
    requires Inv(s) && ValidSegment(k) && Agrees(s.refs, k) && Witness(s, k) && !Strays(s, l)
    ensures Agrees(Next(s, l).refs, k) <==> !LandsWithoutEntity(s, l, k)
  {
    if Lands(s, l) { LandedAgreement(s, l, k); } else { OnlyLandingsMove(s, l); }
  }

  /** The index agrees in every state of the run. */
  ghost predicate AlwaysAgrees(s: State, labels: seq<Label>, k: Text)
    requires WellFormed(s)
  {
    Agrees(Exec(s, labels).refs, k) && (labels != [] ==> AlwaysAgrees(s, labels[..|labels| - 1], k))
  }

  ghost predicate NeverLandsWithoutEntity(s: State, labels: seq<Label>, k: Text)
    requires WellFormed(s)
  {
    labels != [] ==>
      && NeverLandsWithoutEntity(s, labels[..|labels| - 1], k)
      && !LandsWithoutEntity(Exec(s, labels[..|labels| - 1]), labels[|labels| - 1], k)
  }

  lemma {:induction false} AgreeingWitness(s: State, labels: seq<Label>, k: Text)
    requires Initial(s) && NeverStrays(s, labels) && ValidSegment(k) && AlwaysAgrees(s, labels, k)
    ensures Witness(Exec(s, labels), k)
  {
    if labels == [] {
      forall i | 0 <= i < |s.clients| ensures s.clients[i].phase == AtRef { assert s.clients[i] in s.clients; }
    } else {
      var front := labels[..|labels| - 1];
      AgreeingWitness(s, front, k);
      ExecInv(s, front);
      WitnessStep(Exec(s, front), labels[|labels| - 1], k);
    }
  }

  /** Index agreement, exactly: started in agreement, the index agrees in every state of a run that never
      strays if and only if no republish that moves no entity ref ever lands a batch. Any mix of
      publishers and deleters of any kinds, any interleaving. */
  lemma {:induction false} IndexAgreement(s: State, labels: seq<Label>, k: Text)
    requires Initial(s) && NeverStrays(s, labels) && ValidSegment(k) && Agrees(s.refs, k)
    ensures AlwaysAgrees(s, labels, k) <==> NeverLandsWithoutEntity(s, labels, k)
  {
    if labels != [] {
      var front := labels[..|labels| - 1];
      IndexAgreement(s, front, k);
      if AlwaysAgrees(s, front, k) {
        AgreeingWitness(s, front, k);
        ExecInv(s, front);
        AgreementStep(Exec(s, front), labels[|labels| - 1], k);
      }
    }
  }

  // ---- what callers can check ----

  /** The operations of the clients keep what was checked of them. */
  lemma CheckedOps(s: State, labels: seq<Label>)
    requires WellFormed(s) && forall c <- s.clients :: ParentChecked(c.op) && EditBearing(c.op)
    ensures forall c <- Exec(s, labels).clients :: ParentChecked(c.op) && EditBearing(c.op)
  {
    var m := Exec(s, labels);
    forall c <- m.clients ensures ParentChecked(c.op) && EditBearing(c.op) {
      var i :| 0 <= i < |m.clients| && m.clients[i] == c;
      assert s.clients[i] in s.clients;
    }
  }

  lemma CheckedLanding(s: State, l: Label, k: Text)
    requires Inv(s) && forall c <- s.clients :: EditBearing(c.op)
    ensures !LandsWithoutEntity(s, l, k)
  {
    if Lands(s, l) {
      var c := s.clients[l.client];
      assert c in s.clients && ClientOk(c, Source(s.refs, c.op.kind));
      EditBearingMoves(c.op, c.phase.resolved);
    }
  }

  lemma {:induction false} CheckedNeverWithoutEntity(s: State, labels: seq<Label>, k: Text)
    requires Initial(s) && NeverStrays(s, labels) && forall c <- s.clients :: ParentChecked(c.op) && EditBearing(c.op)
    ensures NeverLandsWithoutEntity(s, labels, k)
  {
    if labels != [] {
      var front := labels[..|labels| - 1];
      CheckedNeverWithoutEntity(s, front, k);
      ExecInv(s, front);
      CheckedOps(s, front);
      CheckedLanding(Exec(s, front), labels[|labels| - 1], k);
    }
  }

  /** Index agreement, by what the callers can check beforehand: if every publication comes with a demand, not
      for a commit that holds its document already, and with no explicit parent or one above that demand, the
      index agrees in every state of every run. */
  lemma CheckedAgreement(s: State, labels: seq<Label>, k: Text)
    requires Initial(s) && ValidSegment(k) && Agrees(s.refs, k)
    requires forall c <- s.clients :: ParentChecked(c.op) && EditBearing(c.op)
    ensures AlwaysAgrees(s, labels, k)
  {
    CheckedNeverStrays(s, labels);
    CheckedNeverWithoutEntity(s, labels, k);
    IndexAgreement(s, labels, k);
  }
}
