/** The index in runs of publishers, deleters and transactions (`git-store/src/kind.rs`, `transaction.rs`):
    whatever they interleave, exactly which batches keep it. */
module KindMixedIndex {
  import opened Order
  import opened RefStore
  import opened Names
  import opened Layout
  import opened IndexCodec
  import opened Kind
  import opened KindAba
  import opened KindMixed
  import Index
  import T = Transaction
  import X = TransactionIndex

  /** What a transaction listed can be indexed. */
  ghost predicate ListingsFit(e: Event)
    requires Genuine(e)
  {
    e.Submits? ==> forall i :: 0 <= i < |e.trace.kinds| ==>
      Index.AllIndexable(Source(X.ListedAt(e.trace, i).refs, e.trace.kinds[i]))
  }

  ghost predicate AllListingsFit(events: seq<Event>)
    requires AllGenuine(events)
  {
    forall i :: 0 <= i < |events| ==> ListingsFit(events[i])
  }

  ghost predicate Submitted(s: State, e: Event)
    requires Genuine(e)
  {
    e.Submits? && ApplyBatch(s.refs, T.WholeBatch(e.staged, e.trace)).Ok?
  }

  /** If this event lands a batch that touches the kind, it lists the entities it leaves, or writes no index
      and moves none. */
  ghost predicate EventLists(s: State, e: Event, k: Text)
    requires WellFormed(s) && Genuine(e)
  {
    && (e.Steps? ==> ListsAt(s, e.l, k))
    && (Submitted(s, e) ==> forall i :: 0 <= i < |e.trace.kinds| && e.trace.kinds[i] == k ==>
          if X.WritesIndex(e.staged, e.trace, i) then X.Written(e.staged, e.trace, i) == Source(Happen(s, e).refs, k)
          else X.Moves(e.staged, e.trace.steps, k) == [])
  }

  lemma {:induction false} MovesAmongDeltas(staged: seq<T.Staged>, steps: seq<T.Step>, k: Text)
    requires |steps| <= |staged|
    ensures T.Deltas(staged, steps, k) == [] ==> X.Moves(staged, steps, k) == []
    decreases |steps|
  {
    if steps != [] { MovesAmongDeltas(staged, steps[..|steps| - 1], k); }
  }

  /** A kind the transaction does not touch keeps its entities and its index. */
  lemma Untouched(before: Refs, e: Event, k: Text)
    requires e.Submits? && Genuine(e) && ValidSegment(k) && k !in e.trace.kinds && Agrees(before, k)
    ensures Agrees(Publish(before, T.WholeBatch(e.staged, e.trace)), k)
  {
    hide T.WholeBatch, Publish;
    X.LandedLeaves(before, e.staged, e.message, e.trace, k);
    assert T.Deltas(e.staged, e.trace.steps, k) == [];
    MovesAmongDeltas(e.staged, e.trace.steps, k);
  }

  lemma Touched(before: Refs, e: Event, i: nat)
    requires e.Submits? && Genuine(e) && ListingsFit(e) && i < |e.trace.kinds| && Agrees(before, e.trace.kinds[i])
    requires Index.AllIndexable(Source(before, e.trace.kinds[i]))
    requires ApplyBatch(before, T.WholeBatch(e.staged, e.trace)).Ok?
    ensures var k, after := e.trace.kinds[i], Publish(before, T.WholeBatch(e.staged, e.trace));
      Agrees(after, k) <==>
        if X.WritesIndex(e.staged, e.trace, i) then X.Written(e.staged, e.trace, i) == Source(after, k)
        else X.Moves(e.staged, e.trace.steps, k) == []
  {
    hide T.WholeBatch, Publish, ApplyBatch, Agrees;
    X.LandedIndex(before, e.staged, e.message, e.trace, i);
  }

  lemma SubmittedAgreement(s: State, e: Event, k: Text)
    requires AllFit(s) && Genuine(e) && ListingsFit(e) && Submitted(s, e) && ValidSegment(k) && Agrees(s.refs, k)
    ensures Agrees(Happen(s, e).refs, k) <==> EventLists(s, e, k)
  {
    hide T.WholeBatch, Publish, Agrees, ListingsFit, X.WritesIndex, X.Written;
    var t := e.trace;
    if k in t.kinds {
      var i :| 0 <= i < |t.kinds| && t.kinds[i] == k;
      assert forall j :: 0 <= j < |t.kinds| && t.kinds[j] == k ==> j == i by { T.RisingDistinct(t.kinds); }
      Touched(s.refs, e, i);
    } else {
      Untouched(s.refs, e, k);
    }
  }

  lemma EventAgreement(s: State, e: Event, k: Text)
    requires AllFit(s) && Genuine(e) && ListingsFit(e) && ValidSegment(k) && Agrees(s.refs, k)
    ensures Agrees(Happen(s, e).refs, k) <==> EventLists(s, e, k)
  {
    if e.Steps? {
      StepAgreement(s, e.l, k);
    } else if Submitted(s, e) {
      SubmittedAgreement(s, e, k);
    }
  }

  lemma EventFits(s: State, e: Event)
    requires AllFit(s) && Genuine(e)
    ensures AllFit(Happen(s, e))
  {
    if e.Steps? {
      NextFits(s, e.l);
    } else if Submitted(s, e) {
      forall k: Text, p | ValidSegment(k) && p in Source(Happen(s, e).refs, k) ensures Indexable(p) {
        LandedName(s.refs, e, k, p);
      }
    }
  }

  lemma {:induction false} PlayFits(s: State, events: seq<Event>)
    requires AllFit(s) && AllGenuine(events)
    ensures AllFit(Play(s, events))
  {
    if events != [] {
      PlayFits(s, events[..|events| - 1]);
      EventFits(Play(s, events[..|events| - 1]), events[|events| - 1]);
    }
  }

  ghost predicate AlwaysAgreeing(s: State, events: seq<Event>, k: Text)
    requires WellFormed(s) && AllGenuine(events)
  {
    Agrees(Play(s, events).refs, k) && (events != [] ==> AlwaysAgreeing(s, events[..|events| - 1], k))
  }

  ghost predicate AlwaysListing(s: State, events: seq<Event>, k: Text)
    requires WellFormed(s) && AllGenuine(events)
  {
    events != [] ==>
      var n := |events| - 1;
      AlwaysListing(s, events[..n], k) && EventLists(Play(s, events[..n]), events[n], k)
  }

  /** In every run of publishers, deleters and transactions, explicit parents and all, started in agreement:
      the index agrees in every state if and only if every batch that lands and touches the kind lists the
      entities it leaves. */
  lemma {:induction false} AgreementAmongAll(s: State, events: seq<Event>, k: Text)
    requires Initial(s) && AllGenuine(events) && AllListingsFit(events) && ValidSegment(k) && Agrees(s.refs, k)
    ensures AlwaysAgreeing(s, events, k) <==> AlwaysListing(s, events, k)
  {
    if events != [] {
      var n := |events| - 1;
      AgreementAmongAll(s, events[..n], k);
      if AlwaysAgreeing(s, events[..n], k) {
        InitialFits(s);
        PlayFits(s, events[..n]);
        EventAgreement(Play(s, events[..n]), events[n], k);
      }
    }
  }
}
