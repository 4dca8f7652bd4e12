/** `Store::commit_forward` under contention (`git-store/src/store.rs`): read the ref, build a tree over
    what was read, write the commit, compare-and-swap, and start over on a lost race. */
module CommitForward {
  import opened Wrappers
  import opened Order
  import opened Objects
  import opened RefStore
  import Messages

  /** The caller's `build_tree`; nothing when it fails. */
  type Builder = Option<Object> -> Option<Object>

  datatype Job = Job(build: Builder, message: Text)

  datatype Phase =
    | AtRead
    | AtBuild(parent: Option<Object>)
    | AtApply(parent: Option<Object>, commit: Object, stamp: int)
    | Done(result: Option<Object>)

  datatype Turn = Turn(client: nat, stamp: int)

  /** `landed` lists, in order, the compare-and-swaps that succeeded. */
  datatype State = State(refs: Refs, phases: seq<Phase>, landed: seq<Turn>)

  datatype Label = Label(client: nat, stamp: int, fails: bool)

  function Parents(parent: Option<Object>): seq<Object> { if parent.Some? then [parent.value] else [] }

  function EditOf(name: Text, parent: Option<Object>, commit: Object): RefEdit {
    if parent.Some? then Update(name, parent.value, commit) else Create(name, commit)
  }

  function Next(name: Text, jobs: seq<Job>, s: State, l: Label): State
    requires |s.phases| == |jobs|
  {
    if l.client >= |jobs| || s.phases[l.client].Done? then s
    else if l.fails then s.(phases := s.phases[l.client := Done(None)])
    else
      match s.phases[l.client]
      case AtRead => s.(phases := s.phases[l.client := AtBuild(Read(s.refs, name))])
      case AtBuild(parent) =>
        (match jobs[l.client].build(parent)
         case None => s.(phases := s.phases[l.client := Done(None)])
         case Some(tree) =>
           if !Messages.Accepted(jobs[l.client].message) then s.(phases := s.phases[l.client := Done(None)])
           else
             var commit := Commit(tree, Parents(parent), jobs[l.client].message, l.stamp);
             s.(phases := s.phases[l.client := AtApply(parent, commit, l.stamp)]))
      case AtApply(parent, commit, stamp) =>
        (match ApplyBatch(s.refs, [EditOf(name, parent, commit)])
         case Ok(after) =>
           State(after, s.phases[l.client := Done(Some(commit))], s.landed + [Turn(l.client, stamp)])
         case Err(_) => s.(phases := s.phases[l.client := AtRead]))
  }

  function Exec(name: Text, jobs: seq<Job>, s: State, labels: seq<Label>): (t: State)
    requires |s.phases| == |jobs|
    ensures |t.phases| == |jobs|
  {
    if labels == [] then s
    else Next(name, jobs, Exec(name, jobs, s, labels[..|labels| - 1]), labels[|labels| - 1])
  }

  ghost predicate Initial(jobs: seq<Job>, s: State) {
    |s.phases| == |jobs| && s.landed == [] && forall p <- s.phases :: p == AtRead
  }

  /** The builders folded over the starting value in landing order. */
  function Fold(jobs: seq<Job>, start: Option<Object>, landed: seq<Turn>): Option<Object>
    requires forall x <- landed :: x.client < |jobs|
  {
    if landed == [] then start
    else
      var last := landed[|landed| - 1];
      assert last in landed;
      var parent := Fold(jobs, start, landed[..|landed| - 1]);
      match jobs[last.client].build(parent)
      case None => parent
      case Some(tree) => Some(Commit(tree, Parents(parent), jobs[last.client].message, last.stamp))
  }

  function Length(tip: Option<Object>): nat { if tip.Some? then Depth(tip.value) else 0 }

  ghost predicate Built(job: Job, parent: Option<Object>, commit: Object, stamp: int) {
    && commit.Commit? && commit.parents == Parents(parent)
    && job.build(parent) == Some(commit.tree) && commit.message == job.message && commit.stamp == stamp
    && Messages.Accepted(job.message)
  }

  /** What is about to be applied is what the builder makes of the value that was read. */
  ghost predicate Building(jobs: seq<Job>, s: State) {
    && |s.phases| == |jobs|
    && forall i :: 0 <= i < |jobs| && s.phases[i].AtApply? ==>
         Built(jobs[i], s.phases[i].parent, s.phases[i].commit, s.phases[i].stamp)
  }

  predicate Succeeded(p: Phase) { p.Done? && p.result.Some? }

  /** The landings are exactly those of the clients that reported success, once each. */
  ghost predicate Accounted(s: State) {
    && (forall x <- s.landed :: x.client < |s.phases| && Succeeded(s.phases[x.client]))
    && (forall i :: 0 <= i < |s.phases| && Succeeded(s.phases[i]) ==> exists x :: x in s.landed && x.client == i)
    && (forall i, j :: 0 <= i < j < |s.landed| ==> s.landed[i].client != s.landed[j].client)
  }

  ghost predicate Inv(jobs: seq<Job>, s: State) { Building(jobs, s) && Accounted(s) }

  lemma AccountedOn(s: State, t: State, client: nat, stamp: int)
    requires Accounted(s) && client < |s.phases| && !Succeeded(s.phases[client])
    requires |t.phases| == |s.phases| && forall i :: 0 <= i < |s.phases| && i != client ==> t.phases[i] == s.phases[i]
    requires Succeeded(t.phases[client]) && t.landed == s.landed + [Turn(client, stamp)]
    ensures Accounted(t)
  {
    var last := Turn(client, stamp);
    assert last in t.landed && last.client == client;
    forall x <- t.landed ensures x.client < |t.phases| && Succeeded(t.phases[x.client]) {
      if x != last { assert x in s.landed; }
    }
    forall i | 0 <= i < |s.landed| ensures s.landed[i].client != client { assert s.landed[i] in s.landed; }
    forall i | 0 <= i < |t.phases| && Succeeded(t.phases[i]) ensures exists x :: x in t.landed && x.client == i {
      if i != client {
        var x :| x in s.landed && x.client == i;
        assert x in t.landed;
      }
    }
  }

  lemma AccountedStill(s: State, t: State)
    requires Accounted(s) && |t.phases| == |s.phases| && t.landed == s.landed
    requires forall i :: 0 <= i < |s.phases| ==> (Succeeded(t.phases[i]) <==> Succeeded(s.phases[i]))
    ensures Accounted(t)
  {
  }

  /** A step touches one client, which succeeds exactly when a batch lands. */
  lemma StepsOne(name: Text, jobs: seq<Job>, s: State, l: Label)
    requires |s.phases| == |jobs|
    ensures var t := Next(name, jobs, s, l);
      && |t.phases| == |s.phases|
      && (forall i :: 0 <= i < |s.phases| && i != l.client ==> t.phases[i] == s.phases[i])
      && if t.landed == s.landed
         then forall i :: 0 <= i < |s.phases| ==> (Succeeded(t.phases[i]) <==> Succeeded(s.phases[i]))
         else
           && l.client < |jobs| && s.phases[l.client].AtApply? && Succeeded(t.phases[l.client])
           && t.landed == s.landed + [Turn(l.client, s.phases[l.client].stamp)]
  {
  }

  lemma NextBuilding(name: Text, jobs: seq<Job>, s: State, l: Label)
    requires Building(jobs, s)
    ensures Building(jobs, Next(name, jobs, s, l))
  {
  }

  lemma NextKeepsInv(name: Text, jobs: seq<Job>, s: State, l: Label)
    requires Inv(jobs, s)
    ensures Inv(jobs, Next(name, jobs, s, l))
  {
    hide Built, ApplyBatch, Accounted;
    var t := Next(name, jobs, s, l);
    NextBuilding(name, jobs, s, l);
    StepsOne(name, jobs, s, l);
    if t.landed == s.landed { AccountedStill(s, t); } else { AccountedOn(s, t, l.client, s.phases[l.client].stamp); }
  }

  /** A landed commit's parent is exactly the value it displaced, and its tree is what its builder
      makes of that value. */
  lemma LandingOverDisplaced(name: Text, jobs: seq<Job>, s: State, l: Label)
    requires Inv(jobs, s)
    ensures var t := Next(name, jobs, s, l);
      if t.landed == s.landed then t.refs == s.refs
      else
        && l.client < |jobs| && s.phases[l.client].AtApply?
        && var c := s.phases[l.client].commit;
        && Built(jobs[l.client], Read(s.refs, name), c, s.phases[l.client].stamp)
        && t.refs == s.refs[name := c]
        && t.landed == s.landed + [Turn(l.client, s.phases[l.client].stamp)]
        && t.phases[l.client] == Done(Some(c))
  {
    if l.client < |jobs| && s.phases[l.client].AtApply? {
      ApplyOne(s.refs, EditOf(name, s.phases[l.client].parent, s.phases[l.client].commit));
    }
  }

  lemma FoldSnoc(jobs: seq<Job>, start: Option<Object>, landed: seq<Turn>, client: nat, c: Object)
    requires client < |jobs| && c.Commit? && forall x <- landed :: x.client < |jobs|
    requires Built(jobs[client], Fold(jobs, start, landed), c, c.stamp)
    ensures forall x <- landed + [Turn(client, c.stamp)] :: x.client < |jobs|
    ensures Fold(jobs, start, landed + [Turn(client, c.stamp)]) == Some(c)
    ensures Length(Some(c)) == Length(Fold(jobs, start, landed)) + 1
  {
    var all := landed + [Turn(client, c.stamp)];
    assert all[..|all| - 1] == landed;
    assert all[|all| - 1].client == client;
  }

  /** Where `t` stands against the start: the landed builders folded, one commit each. */
  ghost predicate Folded(name: Text, jobs: seq<Job>, start: Refs, t: State) {
    && (forall x <- t.landed :: x.client < |jobs|)
    && Read(t.refs, name) == Fold(jobs, Read(start, name), t.landed)
    && Length(Read(t.refs, name)) == Length(Read(start, name)) + |t.landed|
    && forall other :: other != name ==> Read(t.refs, other) == Read(start, other)
  }

  lemma LandedFolded(name: Text, jobs: seq<Job>, start: Refs, m: State, t: State, client: nat, c: Object)
    requires Folded(name, jobs, start, m)
    requires client < |jobs| && c.Commit? && Built(jobs[client], Read(m.refs, name), c, c.stamp)
    requires t.refs == m.refs[name := c] && t.landed == m.landed + [Turn(client, c.stamp)]
    ensures Folded(name, jobs, start, t)
  {
    FoldSnoc(jobs, Read(start, name), m.landed, client, c);
    assert Read(t.refs, name) == Some(c);
    assert |t.landed| == |m.landed| + 1;
  }

  lemma NextFolded(name: Text, jobs: seq<Job>, start: Refs, m: State, l: Label)
    requires Inv(jobs, m) && Folded(name, jobs, start, m)
    ensures Folded(name, jobs, start, Next(name, jobs, m, l))
  {
    LandingOverDisplaced(name, jobs, m, l);
    var t := Next(name, jobs, m, l);
    if t.landed != m.landed {
      LandedFolded(name, jobs, start, m, t, l.client, m.phases[l.client].commit);
    }
  }

  /** No update is lost: whatever the interleaving, the tip is the fold of the builders that reported
      success, each exactly once and in landing order, history has grown by exactly one commit for each,
      and no other ref has moved. */
  lemma {:induction false} NoLostUpdate(name: Text, jobs: seq<Job>, s: State, labels: seq<Label>)
    requires Initial(jobs, s)
    ensures Inv(jobs, Exec(name, jobs, s, labels)) && Folded(name, jobs, s.refs, Exec(name, jobs, s, labels))
  {
    if labels == [] {
      forall i | 0 <= i < |jobs| ensures s.phases[i] == AtRead { assert s.phases[i] in s.phases; }
    } else {
      NoLostUpdate(name, jobs, s, labels[..|labels| - 1]);
      NextKeepsInv(name, jobs, Exec(name, jobs, s, labels[..|labels| - 1]), labels[|labels| - 1]);
      NextFolded(name, jobs, s.refs, Exec(name, jobs, s, labels[..|labels| - 1]), labels[|labels| - 1]);
    }
  }

  // ---- why a client fails ----

  datatype ForwardError = NotBuilt | TrailerReserved

  /** What the job comes to over `parent`: its tree and message are good, or whichever is not is named. */
  function Refusal(job: Job, parent: Option<Object>): Option<ForwardError> {
    if job.build(parent) == None then Some(NotBuilt)
    else if !Messages.Accepted(job.message) then Some(TrailerReserved)
    else None
  }

  /** At the `n`th step `client` reads `parent` from the ref. */
  ghost predicate ReadsAt(name: Text, jobs: seq<Job>, s: State, labels: seq<Label>, client: nat, n: nat,
                          parent: Option<Object>)
    requires |s.phases| == |jobs| && client < |jobs| && n < |labels|
  {
    var m := Exec(name, jobs, s, labels[..n]);
    labels[n].client == client && !labels[n].fails && m.phases[client] == AtRead && parent == Read(m.refs, name)
  }

  ghost predicate HasRead(name: Text, jobs: seq<Job>, s: State, labels: seq<Label>, client: nat, parent: Option<Object>)
    requires |s.phases| == |jobs| && client < |jobs|
  {
    exists n :: 0 <= n < |labels| && ReadsAt(name, jobs, s, labels, client, n, parent)
  }

  /** At the `n`th step `client`, not yet done, fails, or builds over a value its job is refused over. */
  ghost predicate EndsAt(name: Text, jobs: seq<Job>, s: State, labels: seq<Label>, client: nat, n: nat)
    requires |s.phases| == |jobs| && client < |jobs| && n < |labels|
  {
    var phase := Exec(name, jobs, s, labels[..n]).phases[client];
    && labels[n].client == client && !phase.Done?
    && (labels[n].fails || (phase.AtBuild? && Refusal(jobs[client], phase.parent).Some?))
  }

  ghost predicate HasEnded(name: Text, jobs: seq<Job>, s: State, labels: seq<Label>, client: nat)
    requires |s.phases| == |jobs| && client < |jobs|
  {
    exists n :: 0 <= n < |labels| && EndsAt(name, jobs, s, labels, client, n)
  }

  lemma HasReadOn(name: Text, jobs: seq<Job>, s: State, labels: seq<Label>, client: nat, parent: Option<Object>)
    requires |s.phases| == |jobs| && client < |jobs| && labels != []
    ensures var n := |labels| - 1;
      HasRead(name, jobs, s, labels, client, parent) <==>
        HasRead(name, jobs, s, labels[..n], client, parent) || ReadsAt(name, jobs, s, labels, client, n, parent)
  {
    var n := |labels| - 1;
    forall i | 0 <= i < n
      ensures ReadsAt(name, jobs, s, labels, client, i, parent) <==>
              ReadsAt(name, jobs, s, labels[..n], client, i, parent)
    {
      assert labels[..n][..i] == labels[..i];
    }
  }

  lemma HasEndedOn(name: Text, jobs: seq<Job>, s: State, labels: seq<Label>, client: nat)
    requires |s.phases| == |jobs| && client < |jobs| && labels != []
    ensures var n := |labels| - 1;
      HasEnded(name, jobs, s, labels, client) <==>
        HasEnded(name, jobs, s, labels[..n], client) || EndsAt(name, jobs, s, labels, client, n)
  {
    var n := |labels| - 1;
    forall i | 0 <= i < n
      ensures EndsAt(name, jobs, s, labels, client, i) <==> EndsAt(name, jobs, s, labels[..n], client, i)
    {
      assert labels[..n][..i] == labels[..i];
    }
  }

  /** Where a step leaves a client. A lost race sends it back to read again. */
  lemma StepPhase(name: Text, jobs: seq<Job>, s: State, l: Label, client: nat)
    requires |s.phases| == |jobs| && client < |jobs|
    ensures var p, q := s.phases[client], Next(name, jobs, s, l).phases[client];
      if l.client != client || p.Done? then q == p
      else if l.fails then q == Done(None)
      else if p == AtRead then q == AtBuild(Read(s.refs, name))
      else if p.AtBuild? then
        (if Refusal(jobs[client], p.parent).Some? then q == Done(None) else q.AtApply? && q.parent == p.parent)
      else
        (if Read(s.refs, name) == p.parent then q == Done(Some(p.commit)) else q == AtRead)
  {
    if client == l.client && s.phases[client].AtApply? {
      ApplyOne(s.refs, EditOf(name, s.phases[client].parent, s.phases[client].commit));
    }
  }

  /** What a client builds on it has read from the ref in the run. */
  lemma {:induction false} BuildsOnRead(name: Text, jobs: seq<Job>, s: State, labels: seq<Label>, client: nat)
    requires Initial(jobs, s) && client < |jobs|
    ensures var p := Exec(name, jobs, s, labels).phases[client];
      (p.AtBuild? ==> HasRead(name, jobs, s, labels, client, p.parent)) &&
      (p.AtApply? ==> HasRead(name, jobs, s, labels, client, p.parent))
  {
    if labels == [] {
      assert s.phases[client] in s.phases;
    } else {
      var n := |labels| - 1;
      var p := Exec(name, jobs, s, labels).phases[client];
      BuildsOnRead(name, jobs, s, labels[..n], client);
      StepPhase(name, jobs, Exec(name, jobs, s, labels[..n]), labels[n], client);
      hide Next, HasRead, Refusal;
      if p.AtBuild? { HasReadOn(name, jobs, s, labels, client, p.parent); }
      if p.AtApply? { HasReadOn(name, jobs, s, labels, client, p.parent); }
    }
  }

  /** A client is told it failed exactly when a step of its own fails or it builds over a value its
      job is refused over. */
  lemma {:induction false} FailsExactly(name: Text, jobs: seq<Job>, s: State, labels: seq<Label>, client: nat)
    requires Initial(jobs, s) && client < |jobs|
    ensures Exec(name, jobs, s, labels).phases[client] == Done(None) <==> HasEnded(name, jobs, s, labels, client)
  {
    if labels == [] {
      assert s.phases[client] in s.phases;
    } else {
      var n := |labels| - 1;
      FailsExactly(name, jobs, s, labels[..n], client);
      StepPhase(name, jobs, Exec(name, jobs, s, labels[..n]), labels[n], client);
      HasEndedOn(name, jobs, s, labels, client);
      hide Next, HasEnded, Refusal;
    }
  }

  /** So losing a race never fails a client: it fails for a step of its own that does, or for a value it read
      from the ref in the run, over which its job is refused. */
  lemma FailureHasCause(name: Text, jobs: seq<Job>, s: State, labels: seq<Label>, client: nat)
    requires Initial(jobs, s) && client < |jobs|
    requires Exec(name, jobs, s, labels).phases[client] == Done(None)
    ensures
      || (exists l <- labels :: l.client == client && l.fails)
      || exists parent :: HasRead(name, jobs, s, labels, client, parent) && Refusal(jobs[client], parent).Some?
  {
    FailsExactly(name, jobs, s, labels, client);
    var n :| 0 <= n < |labels| && EndsAt(name, jobs, s, labels, client, n);
    if labels[n].fails {
      assert labels[n] in labels;
    } else {
      var parent := Exec(name, jobs, s, labels[..n]).phases[client].parent;
      BuildsOnRead(name, jobs, s, labels[..n], client);
      var m :| 0 <= m < n && ReadsAt(name, jobs, s, labels[..n], client, m, parent);
      assert labels[..n][..m] == labels[..m];
      assert ReadsAt(name, jobs, s, labels, client, m, parent);
    }
  }
}
