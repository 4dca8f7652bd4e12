/** What deletions leave, in every run whatever the others do (`git-store/src/kind.rs`). */
module KindDeletes {
  import opened Wrappers
  import opened Order
  import opened Objects
  import opened RefStore
  import opened Names
  import opened Layout
  import opened Tombstones
  import opened Kind
  import opened KindRuns

  ghost predicate AllProper(s: State) {
    && WellFormed(s)
    && forall i :: 0 <= i < |s.clients| ==>
         s.clients[i].op.name != [] && PhaseProper(s.clients[i].op, s.clients[i].phase)
  }

  lemma NextProper(s: State, l: Label)
    requires AllProper(s)
    ensures AllProper(Next(s, l))
  {
    NextWellFormed(s, l);
    if l.client < |s.clients| {
      var c := s.clients[l.client];
      assert c in s.clients;
      AdvanceProper(s.refs, c, l.stamp);
    }
  }

  lemma {:induction false} ExecProper(s: State, labels: seq<Label>)
    requires AllProper(s)
    ensures AllProper(Exec(s, labels))
  {
    if labels != [] {
      ExecProper(s, labels[..|labels| - 1]);
      NextProper(Exec(s, labels[..|labels| - 1]), labels[|labels| - 1]);
    }
  }

  lemma InitialProper(s: State)
    requires Initial(s)
    ensures AllProper(s)
  {
    forall i | 0 <= i < |s.clients| ensures s.clients[i].op.name != [] && s.clients[i].phase == AtRef {
      assert s.clients[i] in s.clients;
    }
  }

  /** A landed deletion displaced a live commit, buries it, and is what the client reports. */
  lemma LandedBurial(s: State, l: Label)
    requires AllProper(s) && Lands(s, l) && s.clients[l.client].op.DeleteName?
    ensures var op := s.clients[l.client].op;
      var r, after := EntityRef(op.kind, op.name), Next(s, l);
      && r in s.refs && r in after.refs
      && Buries(op.kind, after.refs[r], s.refs[r])
      && after.clients[l.client].phase == Done(Outcome.Deleted(after.refs[r]))
  {
    var c := s.clients[l.client];
    assert c in s.clients;
    BatchEffect(s.refs, c.op, c.phase.resolved, c.phase.index, c.phase.source, c.op.kind);
    SourceMember(Next(s, l).refs, c.op.kind, c.op.name);
  }

  /** In any run at all, a landed deletion displaced a live commit and names that commit's document. */
  lemma TombstoneNamesDisplaced(s: State, labels: seq<Label>, l: Label)
    requires Initial(s) && Lands(Exec(s, labels), l) && Exec(s, labels).clients[l.client].op.DeleteName?
    ensures var before, after := Exec(s, labels), Next(Exec(s, labels), l);
      var op := before.clients[l.client].op;
      var r := EntityRef(op.kind, op.name);
      && r in before.refs && r in after.refs
      && Buries(op.kind, after.refs[r], before.refs[r])
      && after.clients[l.client].phase == Done(Outcome.Deleted(after.refs[r]))
  {
    InitialProper(s);
    ExecProper(s, labels);
    LandedBurial(Exec(s, labels), l);
  }

  // ---- deleting again ----

  /** The ref of `name` holds the tombstone `c`. */
  ghost predicate Buried(refs: Refs, kind: Text, name: Path, c: Object)
    requires name != []
  {
    Read(refs, EntityRef(kind, name)) == Some(c) && ReadCommit(kind, c).Deleted?
  }

  /** A publication lands at `name` and moves its ref. */
  ghost predicate Republishes(s: State, l: Label, kind: Text, name: Path) {
    Lands(s, l) && s.clients[l.client].op.PublishDocument? && s.clients[l.client].op.kind == kind
    && s.clients[l.client].op.name == name && s.clients[l.client].phase.resolved.edit.Some?
  }

  ghost predicate NeverRepublished(s: State, labels: seq<Label>, kind: Text, name: Path)
    requires WellFormed(s)
  {
    labels != [] ==>
      && NeverRepublished(s, labels[..|labels| - 1], kind, name)
      && !Republishes(Exec(s, labels[..|labels| - 1]), labels[|labels| - 1], kind, name)
  }

  /** No second deletion lands over a tombstone: it expects a live commit. */
  lemma BuriedOnce(s: State, l: Label, kind: Text, name: Path, c: Object)
    requires AllProper(s) && ValidPath(name) && Buried(s.refs, kind, name, c)
    requires l.client < |s.clients| && s.clients[l.client].op == DeleteName(kind, name)
    ensures !Lands(s, l)
  {
    if Lands(s, l) { LandedBurial(s, l); }
  }

  lemma BuriedStays(s: State, l: Label, kind: Text, name: Path, c: Object)
    requires AllProper(s) && ValidSegment(kind) && ValidPath(name) && Buried(s.refs, kind, name, c)
    requires !Republishes(s, l, kind, name)
    ensures Buried(Next(s, l).refs, kind, name, c)
  {
    if Lands(s, l) {
      var d := s.clients[l.client];
      assert d in s.clients;
      BatchEffect(s.refs, d.op, d.phase.resolved, d.phase.index, d.phase.source, kind);
      SourceMember(s.refs, kind, name);
      SourceMember(Next(s, l).refs, kind, name);
      if d.op.DeleteName? && d.op.kind == kind && d.op.name == name { BuriedOnce(s, l, kind, name, c); }
    } else {
      OnlyLandingsMove(s, l);
    }
  }

  /** A deletion of `name` is under way, or was answered with the tombstone `c`, or failed for want of a
      backend. */
  ghost predicate Follows(d: Client, kind: Text, name: Path, c: Object) {
    && d.op == DeleteName(kind, name)
    && (d.phase.Done? ==> d.phase.outcome == AlreadyDeleted(c) || d.phase.outcome == Failed(Backend))
  }

  lemma FollowerStep(s: State, l: Label, kind: Text, name: Path, c: Object, i: nat)
    requires AllProper(s) && ValidPath(name) && Buried(s.refs, kind, name, c)
    requires i < |s.clients| && Follows(s.clients[i], kind, name, c)
    ensures Follows(Next(s, l).clients[i], kind, name, c)
    ensures l.client == i ==> Next(s, l).refs == s.refs
    ensures l.client == i && !l.fails && s.clients[i].phase == AtRef ==>
      Next(s, l).clients[i].phase == Done(AlreadyDeleted(c))
  {
    if l.client == i {
      BuriedOnce(s, l, kind, name, c);
      OnlyLandingsMove(s, l);
      var d := s.clients[i];
      if d.phase.AtSource? { assert Batch(d.op, d.phase.resolved, d.phase.index, Source(s.refs, kind)) != []; }
      if d.phase.AtApply? { assert Batch(d.op, d.phase.resolved, d.phase.index, d.phase.source) != []; }
    }
  }

  lemma {:induction false} StaysBuried(s: State, more: seq<Label>, kind: Text, name: Path, c: Object, i: nat)
    requires AllProper(s) && ValidSegment(kind) && ValidPath(name) && Buried(s.refs, kind, name, c)
    requires NeverRepublished(s, more, kind, name) && i < |s.clients| && Follows(s.clients[i], kind, name, c)
    ensures var u := Exec(s, more);
      AllProper(u) && Buried(u.refs, kind, name, c) && Follows(u.clients[i], kind, name, c)
  {
    if more != [] {
      var front, l := more[..|more| - 1], more[|more| - 1];
      StaysBuried(s, front, kind, name, c, i);
      NextProper(Exec(s, front), l);
      BuriedStays(Exec(s, front), l, kind, name, c);
      FollowerStep(Exec(s, front), l, kind, name, c, i);
    }
  }

  /** Deleting again: once a deletion of a name has landed, in any run, and for as long as no publication
      lands there, its tombstone stays at the ref, every other client deleting that name and not yet done
      ends by reporting that very tombstone unless its backend fails, none of its steps changes a ref,
      and one that begins anew reports it at once. */
  lemma RepeatedDelete(s: State, labels: seq<Label>, l: Label, more: seq<Label>, kind: Text, name: Path, i: nat)
    requires Initial(s) && Lands(Exec(s, labels), l) && Exec(s, labels).clients[l.client].op == DeleteName(kind, name)
    requires i < |s.clients| && i != l.client
    requires s.clients[i].op == DeleteName(kind, name) && !Exec(s, labels).clients[i].phase.Done?
    requires WellFormed(Next(Exec(s, labels), l)) && NeverRepublished(Next(Exec(s, labels), l), more, kind, name)
    ensures var t := Next(Exec(s, labels), l);
      var u := Exec(t, more);
      && t.clients[l.client].phase.Done? && t.clients[l.client].phase.outcome.Deleted?
      && var c := t.clients[l.client].phase.outcome.commit;
      && Read(u.refs, EntityRef(kind, name)) == Some(c)
      && Follows(u.clients[i], kind, name, c)
      && forall again: Label :: again.client == i ==>
           && Next(u, again).refs == u.refs
           && (u.clients[i].phase == AtRef && !again.fails ==>
                 Next(u, again).clients[i].phase == Done(AlreadyDeleted(c)))
  {
    InitialProper(s);
    ExecProper(s, labels);
    var b := Exec(s, labels);
    var t := Next(b, l);
    assert b.clients[l.client] in b.clients;
    LandedBurial(b, l);
    NextProper(b, l);
    var c := t.clients[l.client].phase.outcome.commit;
    StaysBuried(t, more, kind, name, c, i);
    var u := Exec(t, more);
    forall again: Label | again.client == i
      ensures Next(u, again).refs == u.refs
      ensures u.clients[i].phase == AtRef && !again.fails ==> Next(u, again).clients[i].phase == Done(AlreadyDeleted(c))
    {
      FollowerStep(u, again, kind, name, c, i);
    }
  }
}
