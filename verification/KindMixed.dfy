/** Publishers, deleters and transactions together, over one store (`git-store/src/kind.rs`,
    `transaction.rs`). */
module KindMixed {
  import opened Order
  import opened RefStore
  import opened Names
  import opened Layout
  import opened IndexCodec
  import opened Kind
  import opened KindRuns
  import T = Transaction

  /** A client of the machine steps, or a transaction that has made its batch of whatever it met submits
      it: it lands if it holds of the refs as they are, and otherwise changes nothing. */
  datatype Event = Steps(l: Label) | Submits(staged: seq<T.Staged>, message: Text, trace: T.Trace)

  /** The batch submitted is one a transaction can come to, over any accesses at all. */
  ghost predicate Genuine(e: Event) {
    e.Submits? ==>
      && T.AllValid(e.staged) && T.Prepared(e.staged, e.message, e.trace)
      && forall s <- e.staged :: Indexable(s.name)
  }

  ghost predicate AllGenuine(events: seq<Event>) { forall i :: 0 <= i < |events| ==> Genuine(events[i]) }

  ghost function Happen(s: State, e: Event): (t: State)
    requires WellFormed(s) && Genuine(e)
    ensures WellFormed(t)
  {
    match e
    case Steps(l) => NextWellFormed(s, l); Next(s, l)
    case Submits(staged, _, trace) =>
      match ApplyBatch(s.refs, T.WholeBatch(staged, trace))
      case Ok(after) => State(after, s.clients)
      case Err(_) => s
  }

  ghost function Play(s: State, events: seq<Event>): (t: State)
    requires WellFormed(s) && AllGenuine(events)
    ensures WellFormed(t)
  {
    if events == [] then s
    else
      var n := |events| - 1;
      Happen(Play(s, events[..n]), events[n])
  }

  // ---- one event ----

  /** `after` adds no name that cannot be indexed. */
  ghost predicate NamesFit(after: Refs) {
    forall k: Text, p :: ValidSegment(k) && p in Source(after, k) ==> Indexable(p)
  }

  lemma LandedName(before: Refs, e: Event, k: Text, p: Path)
    requires e.Submits? && Genuine(e) && ApplyBatch(before, T.WholeBatch(e.staged, e.trace)).Ok?
    requires ValidSegment(k) && p in Source(Publish(before, T.WholeBatch(e.staged, e.trace)), k)
    ensures p in Source(before, k) || Indexable(p)
  {
    var edits := T.WholeBatch(e.staged, e.trace);
    SourceMember(before, k, p);
    SourceMember(Publish(before, edits), k, p);
    var i := T.PublishedFrom(before, edits, EntityRef(k, p));
    if i < |edits| {
      var j := T.EntityEditFor(e.staged, e.message, e.trace, edits[i], k, p);
      assert e.staged[j] in e.staged;
    }
  }

  /** A transaction, whatever it read and whoever wrote while it did, moves every kind only forward. */
  lemma TransactionsAreConsiderate(before: Refs, e: Event)
    requires e.Submits? && Genuine(e) && ApplyBatch(before, T.WholeBatch(e.staged, e.trace)).Ok? && NamesFit(before)
    ensures var after := Publish(before, T.WholeBatch(e.staged, e.trace));
      AllForward(before, after) && NamesFit(after)
  {
    var after := Publish(before, T.WholeBatch(e.staged, e.trace));
    forall k: Text | ValidSegment(k) ensures Forward(Source(before, k), Source(after, k)) {
      T.MovesForward(before, e.staged, e.message, e.trace, k);
    }
    forall k: Text, p | ValidSegment(k) && p in Source(after, k) ensures Indexable(p) { LandedName(before, e, k, p); }
  }

  lemma ForwardKeepsInv(s: State, refs: Refs)
    requires Inv(s) && AllForward(s.refs, refs) && NamesFit(refs)
    ensures Inv(State(refs, s.clients))
  {
    forall c <- s.clients ensures ClientOk(c, Source(refs, c.op.kind)) {
      ClientStable(c, Source(s.refs, c.op.kind), Source(refs, c.op.kind));
    }
  }

  /** Only a client of the machine can stray, never a transaction. */
  ghost predicate StraysAt(s: State, e: Event) { e.Steps? && Strays(s, e.l) }

  lemma Unmoved(refs: Refs)
    ensures AllForward(refs, refs)
  {
    forall k: Text | ValidSegment(k) ensures Forward(Source(refs, k), Source(refs, k)) {
      assert Forward(Source(refs, k), Source(refs, k));
    }
  }

  /** Every event moves every kind forward, but for a step that strays. */
  lemma EventForward(s: State, e: Event)
    requires Inv(s) && Genuine(e)
    ensures AllForward(s.refs, Happen(s, e).refs) <==> !StraysAt(s, e)
    ensures !StraysAt(s, e) ==> Inv(Happen(s, e))
  {
    if e.Steps? {
      StepForward(s, e.l);
      if !Strays(s, e.l) { NextMoves(s, e.l); }
    } else if ApplyBatch(s.refs, T.WholeBatch(e.staged, e.trace)).Ok? {
      TransactionsAreConsiderate(s.refs, e);
      ForwardKeepsInv(s, Happen(s, e).refs);
    } else {
      Unmoved(s.refs);
    }
  }

  // ---- whole runs ----

  ghost predicate NeverStrays(s: State, events: seq<Event>)
    requires WellFormed(s) && AllGenuine(events)
  {
    events != [] ==>
      var n := |events| - 1;
      NeverStrays(s, events[..n]) && !StraysAt(Play(s, events[..n]), events[n])
  }

  ghost predicate AlwaysForward(s: State, events: seq<Event>)
    requires WellFormed(s) && AllGenuine(events)
  {
    events != [] ==>
      var n := |events| - 1;
      AlwaysForward(s, events[..n]) && AllForward(Play(s, events[..n]).refs, Play(s, events).refs)
  }

  lemma {:induction false} PlayInv(s: State, events: seq<Event>)
    requires Initial(s) && AllGenuine(events) && NeverStrays(s, events)
    ensures Inv(Play(s, events))
  {
    if events == [] {
      ExecInv(s, []);
    } else {
      PlayInv(s, events[..|events| - 1]);
      EventForward(Play(s, events[..|events| - 1]), events[|events| - 1]);
    }
  }

  /** Fast-forward among publishers, deleters and transactions, exactly: every event of the run moves every
      kind forward if and only if no publication lands whose explicit parent is not above what it displaces.
      Nothing is asked of the transactions. */
  lemma {:induction false} ForwardExactlyAmongOthers(s: State, events: seq<Event>)
    requires Initial(s) && AllGenuine(events)
    ensures AlwaysForward(s, events) <==> NeverStrays(s, events)
  {
    if events != [] {
      var front := events[..|events| - 1];
      ForwardExactlyAmongOthers(s, front);
      if NeverStrays(s, front) {
        PlayInv(s, front);
        EventForward(Play(s, front), events[|events| - 1]);
      }
    }
  }

  /** In every such run every commit a name ever held stays on the first-parent walk from its tip, and what
      each client was told it published or deleted stays there too. */
  lemma {:induction false} FastForwardAmongOthers(s: State, events: seq<Event>, i: nat, k: Text)
    requires Initial(s) && AllGenuine(events) && NeverStrays(s, events) && i <= |events| && ValidSegment(k)
    ensures Forward(Source(Play(s, events[..i]).refs, k), Source(Play(s, events).refs, k))
    ensures Truthful(Play(s, events))
  {
    PlayInv(s, events);
    InvTruthful(Play(s, events));
    if i < |events| {
      var n := |events| - 1;
      var front := events[..n];
      FastForwardAmongOthers(s, front, i, k);
      assert front[..i] == events[..i];
      PlayInv(s, front);
      EventForward(Play(s, front), events[n]);
      ForwardTransitive(Source(Play(s, events[..i]).refs, k), Source(Play(s, front).refs, k),
                        Source(Play(s, events).refs, k));
    } else {
      assert events[..i] == events;
    }
  }

  lemma PlayOps(s: State, e: Event)
    requires WellFormed(s) && Genuine(e)
    ensures |Happen(s, e).clients| == |s.clients|
    ensures forall i :: 0 <= i < |s.clients| ==> Happen(s, e).clients[i].op == s.clients[i].op
  {
    if e.Steps? { NextWellFormed(s, e.l); }
  }

  ghost predicate AllChecked(s: State) { forall i :: 0 <= i < |s.clients| ==> ParentChecked(s.clients[i].op) }

  /** What the callers can see to: with no explicit parent, or one above the expectation it comes with, no
      run strays, so all of the above holds of it. */
  lemma {:induction false} CheckedAmongOthers(s: State, events: seq<Event>)
    requires Initial(s) && AllGenuine(events) && AllChecked(s)
    ensures NeverStrays(s, events) && AllChecked(Play(s, events))
  {
    if events != [] {
      var n := |events| - 1;
      var front := events[..n];
      CheckedAmongOthers(s, front);
      PlayInv(s, front);
      PlayOps(Play(s, front), events[n]);
      if events[n].Steps? { CheckedStep(Play(s, front), events[n].l); }
    }
  }
}
