/** The batch of `GixRefStore` (`gix-refstore/src/repo.rs`): take one lock file per distinct name in
    ascending order, re-check every expectation, publish, release. Any number of processes run it at
    once; every lock, every read and the publish is a step of its own, in any interleaving. */
module LockedBatch {
  import opened Wrappers
  import opened Order
  import opened RefStore

  // ---- lock file names ----

  const PERCENT: byte := '%' as int
  const SLASH: byte := '/' as int

  function Replace(s: Text, c: byte, with: Text): Text {
    if s == [] then [] else (if s[0] == c then with else [s[0]]) + Replace(s[1..], c, with)
  }

  function EncodeRef(name: Text): Text {
    Replace(Replace(name, PERCENT, Ascii("%25")), SLASH, Ascii("%2F"))
  }

  function DecodeRef(file: Text): Text {
    if file == [] then []
    else if file[0] == PERCENT && |file| >= 3 then
      [if file[2] == '5' as int then PERCENT else SLASH] + DecodeRef(file[3..])
    else [file[0]] + DecodeRef(file[1..])
  }

  lemma {:induction false} ReplaceConcat(a: Text, b: Text, c: byte, with: Text)
    ensures Replace(a + b, c, with) == Replace(a, c, with) + Replace(b, c, with)
  {
    if a == [] {
      assert a + b == b;
    } else {
      assert (a + b)[1..] == a[1..] + b;
      ReplaceConcat(a[1..], b, c, with);
    }
  }

  lemma {:induction false} ReplaceNone(s: Text, c: byte, with: Text)
    requires c !in s
    ensures Replace(s, c, with) == s
  {
    if s != [] {
      ReplaceNone(s[1..], c, with);
      assert s == [s[0]] + s[1..];
    }
  }

  function Escape(c: byte): Text {
    if c == PERCENT then Ascii("%25") else if c == SLASH then Ascii("%2F") else [c]
  }

  lemma EncodeOne(c: byte, rest: Text)
    ensures EncodeRef([c] + rest) == Escape(c) + EncodeRef(rest)
  {
    var head := if c == PERCENT then Ascii("%25") else [c];
    assert ([c] + rest)[1..] == rest;
    ReplaceConcat(head, Replace(rest, PERCENT, Ascii("%25")), SLASH, Ascii("%2F"));
    if c == SLASH {
      assert Replace([c], SLASH, Ascii("%2F")) == Ascii("%2F") + Replace([c][1..], SLASH, Ascii("%2F"));
    } else {
      ReplaceNone(head, SLASH, Ascii("%2F"));
    }
  }

  lemma DecodeOne(c: byte, tail: Text)
    ensures DecodeRef(Escape(c) + tail) == [c] + DecodeRef(tail)
  {
    var t := Escape(c) + tail;
    if c == PERCENT || c == SLASH {
      assert t[0] == PERCENT && t[2] == (if c == PERCENT then '5' as int else 'F' as int);
      assert t[3..] == tail;
    } else {
      assert t[1..] == tail;
    }
  }

  /** Different refs lock different files: the escaping can be undone. */
  lemma {:induction false} EncodeRefInjective(name: Text)
    ensures DecodeRef(EncodeRef(name)) == name
  {
    if name != [] {
      EncodeRefInjective(name[1..]);
      EncodeOne(name[0], name[1..]);
      DecodeOne(name[0], EncodeRef(name[1..]));
      assert name == [name[0]] + name[1..];
    }
  }

  // ---- the machine ----

  datatype Failure = Lost(race: LostRace) | Backend

  type Outcome = Result<(), Failure>

  /** `Locking(h)`: the first `h` locks are held. `Checking(j)`: all are, and `j` edits passed. */
  datatype Phase = Locking(held: nat) | Checking(passed: nat) | Finished(outcome: Outcome)

  datatype Process = Process(edits: seq<RefEdit>, names: seq<Text>, phase: Phase)

  datatype LogEntry = LogEntry(pid: nat, outcome: Outcome)

  /** `log` records, in order, the step at which each batch took effect or was refused. */
  datatype State = State(refs: Refs, locks: map<Text, nat>, procs: seq<Process>, log: seq<LogEntry>)

  /** Process `pid` steps; with `fails` it gives up instead (a lock timeout, an I/O error), and
      releases what it holds. */
  datatype Label = Label(pid: nat, fails: bool)

  /** The iteration order of the `BTreeSet` of names. */
  ghost predicate LockOrder(names: seq<Text>, edits: seq<RefEdit>) {
    && (forall i, j :: 0 <= i < j < |names| ==> TextLess(names[i], names[j]))
    && (forall e <- edits :: e.name in names)
  }

  function Release(locks: map<Text, nat>, pid: nat): map<Text, nat> {
    map f | f in locks && locks[f] != pid :: locks[f]
  }

  function Finish(s: State, pid: nat, outcome: Outcome): State
    requires pid < |s.procs|
  {
    s.(locks := Release(s.locks, pid), procs := s.procs[pid := s.procs[pid].(phase := Finished(outcome))])
  }

  function OutcomeOf(r: Result<Refs, LostRace>): Outcome {
    match r
    case Ok(_) => Ok(())
    case Err(e) => Err(Lost(e))
  }

  function SetPhase(s: State, pid: nat, phase: Phase): State
    requires pid < |s.procs|
  {
    s.(procs := s.procs[pid := s.procs[pid].(phase := phase)])
  }

  function Lock(s: State, pid: nat): State
    requires pid < |s.procs| && s.procs[pid].phase.Locking?
  {
    var p := s.procs[pid];
    var h := p.phase.held;
    if h >= |p.names| then SetPhase(s, pid, Checking(0))
    else if EncodeRef(p.names[h]) in s.locks then s
    else SetPhase(s, pid, Locking(h + 1)).(locks := s.locks[EncodeRef(p.names[h]) := pid])
  }

  function Check(s: State, pid: nat): State
    requires pid < |s.procs| && s.procs[pid].phase.Checking?
  {
    var p := s.procs[pid];
    var j := p.phase.passed;
    if j < |p.edits| then
      if Holds(s.refs, p.edits[j]) then SetPhase(s, pid, Checking(j + 1))
      else Settle(s, pid, s.refs, Err(Lost(LostRace(p.edits[j].name, p.edits[j].Expects()))))
    else
      // gix compares the previous values once more before it publishes.
      var r := ApplyBatch(s.refs, p.edits);
      Settle(s, pid, if r.Ok? then r.value else s.refs, OutcomeOf(r))
  }

  /** Report `outcome`, leaving `refs`, and drop the locks. */
  function Settle(s: State, pid: nat, refs: Refs, outcome: Outcome): State
    requires pid < |s.procs|
  {
    Finish(s, pid, outcome).(refs := refs, log := s.log + [LogEntry(pid, outcome)])
  }

  function Next(s: State, l: Label): State {
    if l.pid >= |s.procs| || s.procs[l.pid].phase.Finished? then s
    else if l.fails then Finish(s, l.pid, Err(Backend))
    else if s.procs[l.pid].phase.Locking? then Lock(s, l.pid)
    else Check(s, l.pid)
  }

  function Exec(s: State, labels: seq<Label>): State {
    if labels == [] then s else Next(Exec(s, labels[..|labels| - 1]), labels[|labels| - 1])
  }

  ghost predicate Initial(s: State) {
    && s.locks == map[] && s.log == []
    && (forall p <- s.procs :: LockOrder(p.names, p.edits) && p.phase == Locking(0))
  }

  // ---- what every reachable state satisfies ----

  function Held(p: Process): nat {
    match p.phase
    case Locking(h) => if h <= |p.names| then h else |p.names|
    case Checking(_) => |p.names|
    case Finished(_) => 0
  }

  /** Every lock file of the names `p` has reached is held by `pid`. */
  ghost predicate Owns(locks: map<Text, nat>, pid: nat, p: Process) {
    forall i :: 0 <= i < Held(p) ==> EncodeRef(p.names[i]) in locks && locks[EncodeRef(p.names[i])] == pid
  }

  ghost predicate Reached(p: Process, file: Text) {
    exists i :: 0 <= i < Held(p) && EncodeRef(p.names[i]) == file
  }

  /** A process holds exactly the lock files of the names it has reached. */
  ghost predicate LocksOwned(locks: map<Text, nat>, procs: seq<Process>) {
    && (forall p :: 0 <= p < |procs| ==> Owns(locks, p, procs[p]))
    && (forall f <- locks :: locks[f] < |procs| && Reached(procs[locks[f]], f))
  }

  ghost predicate ProcessOk(refs: Refs, p: Process) {
    && LockOrder(p.names, p.edits)
    && (p.phase.Locking? ==> p.phase.held <= |p.names|)
    && (p.phase.Checking? ==> p.phase.passed <= |p.edits|)
    && (p.phase.Checking? ==> forall i :: 0 <= i < p.phase.passed ==> Holds(refs, p.edits[i]))
  }

  ghost predicate Inv(s: State) {
    && LocksOwned(s.locks, s.procs)
    && forall i :: 0 <= i < |s.procs| ==> ProcessOk(s.refs, s.procs[i])
  }

  /** Two processes past acquisition never share a ref. */
  lemma MutualExclusion(s: State, p: nat, q: nat, name: Text)
    requires Inv(s) && p < |s.procs| && q < |s.procs|
    requires s.procs[p].phase.Checking? && s.procs[q].phase.Checking?
    requires name in s.procs[p].names && name in s.procs[q].names
    ensures p == q
  {
    var i :| 0 <= i < |s.procs[p].names| && s.procs[p].names[i] == name;
    var j :| 0 <= j < |s.procs[q].names| && s.procs[q].names[j] == name;
    assert Owns(s.locks, p, s.procs[p]) && Owns(s.locks, q, s.procs[q]);
    assert EncodeRef(s.procs[p].names[i]) == EncodeRef(s.procs[q].names[j]);
  }

  /** Nobody else's publish can disturb an expectation that has been checked. */
  lemma PublishKeepsOthers(s: State, p: nat, q: nat)
    requires Inv(s) && p < |s.procs| && q < |s.procs| && p != q
    requires s.procs[p].phase.Checking? && s.procs[q].phase.Checking?
    ensures ProcessOk(Publish(s.refs, s.procs[p].edits), s.procs[q])
  {
    var batch := s.procs[q].edits;
    forall i | 0 <= i < s.procs[q].phase.passed
      ensures Holds(Publish(s.refs, s.procs[p].edits), batch[i])
    {
      assert batch[i] in batch;
      forall e <- s.procs[p].edits ensures e.name != batch[i].name {
        if e.name == batch[i].name { MutualExclusion(s, p, q, e.name); }
      }
      PublishFrame(s.refs, s.procs[p].edits, batch[i].name);
    }
  }

  lemma FinishKeepsLocks(locks: map<Text, nat>, procs: seq<Process>, pid: nat, p: Process)
    requires LocksOwned(locks, procs) && pid < |procs| && Held(p) == 0
    ensures LocksOwned(Release(locks, pid), procs[pid := p])
  {
    var t := procs[pid := p];
    forall q | 0 <= q < |t| ensures Owns(Release(locks, pid), q, t[q]) {
      assert Owns(locks, q, procs[q]);
    }
  }

  lemma AcquireKeepsLocks(locks: map<Text, nat>, procs: seq<Process>, pid: nat, p: Process)
    requires LocksOwned(locks, procs) && pid < |procs|
    requires p.names == procs[pid].names && Held(p) == Held(procs[pid]) + 1
    requires EncodeRef(p.names[Held(p) - 1]) !in locks
    ensures LocksOwned(locks[EncodeRef(p.names[Held(p) - 1]) := pid], procs[pid := p])
  {
    var file := EncodeRef(p.names[Held(p) - 1]);
    var t := procs[pid := p];
    forall q | 0 <= q < |t| ensures Owns(locks[file := pid], q, t[q]) {
      assert Owns(locks, q, procs[q]);
    }
    var after := locks[file := pid];
    forall f <- after ensures Reached(t[after[f]], f) {
      if f == file {
        assert EncodeRef(p.names[Held(p) - 1]) == f;
      } else {
        assert Reached(procs[locks[f]], f);
        var i :| 0 <= i < Held(procs[locks[f]]) && EncodeRef(procs[locks[f]].names[i]) == f;
        assert EncodeRef(t[locks[f]].names[i]) == f;
      }
    }
  }

  lemma SameLocks(locks: map<Text, nat>, procs: seq<Process>, pid: nat, p: Process)
    requires LocksOwned(locks, procs) && pid < |procs|
    requires p.names == procs[pid].names && Held(p) == Held(procs[pid])
    ensures LocksOwned(locks, procs[pid := p])
  {
    var t := procs[pid := p];
    forall q | 0 <= q < |t| ensures Owns(locks, q, t[q]) { assert Owns(locks, q, procs[q]); }
    forall f <- locks ensures Reached(t[locks[f]], f) {
      assert Reached(procs[locks[f]], f);
      var i :| 0 <= i < Held(procs[locks[f]]) && EncodeRef(procs[locks[f]].names[i]) == f;
      assert EncodeRef(t[locks[f]].names[i]) == f;
    }
  }

  lemma LockKeepsInv(s: State, pid: nat)
    requires Inv(s) && pid < |s.procs| && s.procs[pid].phase.Locking?
    ensures Inv(Lock(s, pid))
  {
    var p, t := s.procs[pid], Lock(s, pid);
    assert ProcessOk(s.refs, p);
    if t != s {
      if p.phase.held >= |p.names| {
        SameLocks(s.locks, s.procs, pid, t.procs[pid]);
      } else {
        AcquireKeepsLocks(s.locks, s.procs, pid, t.procs[pid]);
      }
      forall q | 0 <= q < |t.procs| ensures ProcessOk(t.refs, t.procs[q]) {
        assert ProcessOk(s.refs, s.procs[q]);
      }
    }
  }

  lemma FinishKeepsInv(s: State, pid: nat, outcome: Outcome, log: seq<LogEntry>)
    requires Inv(s) && pid < |s.procs|
    ensures Inv(Finish(s, pid, outcome).(log := log))
  {
    var t := Finish(s, pid, outcome);
    FinishKeepsLocks(s.locks, s.procs, pid, t.procs[pid]);
    forall q | 0 <= q < |t.procs| ensures ProcessOk(t.refs, t.procs[q]) {
      assert ProcessOk(s.refs, s.procs[q]);
    }
  }

  lemma PublishKeepsInv(s: State, pid: nat)
    requires Inv(s) && pid < |s.procs| && s.procs[pid].phase.Checking?
    requires FirstFailure(s.refs, s.procs[pid].edits) == None
    ensures Inv(Settle(s, pid, Publish(s.refs, s.procs[pid].edits), Ok(())))
  {
    var t := Settle(s, pid, Publish(s.refs, s.procs[pid].edits), Ok(()));
    FinishKeepsLocks(s.locks, s.procs, pid, t.procs[pid]);
    forall q | 0 <= q < |t.procs| ensures ProcessOk(t.refs, t.procs[q]) {
      assert ProcessOk(s.refs, s.procs[q]);
      if q != pid && s.procs[q].phase.Checking? { PublishKeepsOthers(s, pid, q); }
    }
  }

  /** When the publish step is reached every expectation still holds, so gix never refuses it. */
  lemma PublishNeverRefused(s: State, pid: nat)
    requires Inv(s) && pid < |s.procs| && s.procs[pid].phase == Checking(|s.procs[pid].edits|)
    ensures ApplyBatch(s.refs, s.procs[pid].edits) == Ok(Publish(s.refs, s.procs[pid].edits))
  {
    assert ProcessOk(s.refs, s.procs[pid]);
    NoFailure(s.refs, s.procs[pid].edits);
  }

  lemma PassOk(refs: Refs, p: Process)
    requires ProcessOk(refs, p) && p.phase.Checking? && p.phase.passed < |p.edits|
    requires Holds(refs, p.edits[p.phase.passed])
    ensures ProcessOk(refs, p.(phase := Checking(p.phase.passed + 1)))
  {
  }

  /** Replacing one process by another that owns the same locks. */
  lemma ReplaceKeepsInv(s: State, pid: nat, p: Process)
    requires Inv(s) && pid < |s.procs| && ProcessOk(s.refs, p)
    requires p.names == s.procs[pid].names && Held(p) == Held(s.procs[pid])
    ensures Inv(s.(procs := s.procs[pid := p]))
  {
    SameLocks(s.locks, s.procs, pid, p);
  }

  lemma PassKeepsInv(s: State, pid: nat)
    requires Inv(s) && pid < |s.procs| && s.procs[pid].phase.Checking?
    requires s.procs[pid].phase.passed < |s.procs[pid].edits|
    requires Holds(s.refs, s.procs[pid].edits[s.procs[pid].phase.passed])
    ensures Inv(Check(s, pid))
  {
    var p := s.procs[pid];
    assert ProcessOk(s.refs, p);
    PassOk(s.refs, p);
    ReplaceKeepsInv(s, pid, p.(phase := Checking(p.phase.passed + 1)));
  }

  lemma RefuseKeepsInv(s: State, pid: nat)
    requires Inv(s) && pid < |s.procs| && s.procs[pid].phase.Checking?
    requires s.procs[pid].phase.passed < |s.procs[pid].edits|
    requires !Holds(s.refs, s.procs[pid].edits[s.procs[pid].phase.passed])
    ensures Inv(Check(s, pid))
  {
    var e := s.procs[pid].edits[s.procs[pid].phase.passed];
    var o: Outcome := Err(Lost(LostRace(e.name, e.Expects())));
    FinishKeepsInv(s, pid, o, s.log + [LogEntry(pid, o)]);
  }

  lemma LastCheckKeepsInv(s: State, pid: nat)
    requires Inv(s) && pid < |s.procs| && s.procs[pid].phase.Checking?
    requires s.procs[pid].phase.passed >= |s.procs[pid].edits|
    ensures Inv(Check(s, pid))
  {
    assert ProcessOk(s.refs, s.procs[pid]);
    PublishNeverRefused(s, pid);
    PublishKeepsInv(s, pid);
  }

  lemma CheckKeepsInv(s: State, pid: nat)
    requires Inv(s) && pid < |s.procs| && s.procs[pid].phase.Checking?
    ensures Inv(Check(s, pid))
  {
    var p := s.procs[pid];
    if p.phase.passed >= |p.edits| {
      LastCheckKeepsInv(s, pid);
    } else if Holds(s.refs, p.edits[p.phase.passed]) {
      PassKeepsInv(s, pid);
    } else {
      RefuseKeepsInv(s, pid);
    }
  }

  lemma NextKeepsInv(s: State, l: Label)
    requires Inv(s)
    ensures Inv(Next(s, l))
  {
    if l.pid < |s.procs| && Unfinished(s.procs[l.pid]) {
      if l.fails { FinishKeepsInv(s, l.pid, Err(Backend), s.log); }
      else if s.procs[l.pid].phase.Locking? { LockKeepsInv(s, l.pid); }
      else { CheckKeepsInv(s, l.pid); }
    }
  }

  lemma {:induction false} ExecKeepsInv(s: State, labels: seq<Label>)
    requires Initial(s)
    ensures Inv(Exec(s, labels))
  {
    if labels == [] {
      assert forall i :: 0 <= i < |s.procs| ==> s.procs[i] in s.procs;
    } else {
      ExecKeepsInv(s, labels[..|labels| - 1]);
      NextKeepsInv(Exec(s, labels[..|labels| - 1]), labels[|labels| - 1]);
    }
  }

  // ---- linearizability ----

  /** The refs after the logged batches, each applied atomically in log order. */
  function Replay(refs: Refs, batches: seq<seq<RefEdit>>, log: seq<LogEntry>): Refs
    requires forall e <- log :: e.pid < |batches|
  {
    if log == [] then refs
    else
      var before := Replay(refs, batches, log[..|log| - 1]);
      assert log[|log| - 1] in log;
      match ApplyBatch(before, batches[log[|log| - 1].pid])
      case Ok(after) => after
      case Err(_) => before
  }

  /** Every logged outcome is the one the atomic batch gives at that point. */
  predicate Atomic(refs: Refs, batches: seq<seq<RefEdit>>, log: seq<LogEntry>)
    requires forall e <- log :: e.pid < |batches|
  {
    log == [] ||
    (Atomic(refs, batches, log[..|log| - 1]) &&
     assert log[|log| - 1] in log;
     log[|log| - 1].outcome ==
       OutcomeOf(ApplyBatch(Replay(refs, batches, log[..|log| - 1]), batches[log[|log| - 1].pid])))
  }

  function Batches(s: State): seq<seq<RefEdit>> {
    seq(|s.procs|, i requires 0 <= i < |s.procs| => s.procs[i].edits)
  }

  ghost predicate Logged(s: State) {
    && (forall e <- s.log :: e.pid < |s.procs| && s.procs[e.pid].phase == Finished(e.outcome))
    && (forall i, j :: 0 <= i < j < |s.log| ==> s.log[i].pid != s.log[j].pid)
    && (forall p :: 0 <= p < |s.procs| && s.procs[p].phase.Finished? && s.procs[p].phase.outcome != Err(Backend) ==>
          LogEntry(p, s.procs[p].phase.outcome) in s.log)
  }

  /** At a logged step the outcome and the new refs are those of one atomic batch. */
  lemma StepIsAtomic(s: State, l: Label)
    requires Inv(s)
    ensures var t := Next(s, l);
      if t.log == s.log then t.refs == s.refs
      else
        && l.pid < |s.procs|
        && var r := ApplyBatch(s.refs, s.procs[l.pid].edits);
        && t.log == s.log + [LogEntry(l.pid, OutcomeOf(r))]
        && t.refs == (if r.Ok? then r.value else s.refs)
        && t.procs[l.pid].phase == Finished(OutcomeOf(r)) && !s.procs[l.pid].phase.Finished?
  {
    if l.pid < |s.procs| && s.procs[l.pid].phase.Checking? && !l.fails {
      var p := s.procs[l.pid];
      assert ProcessOk(s.refs, p);
      if p.phase.passed < |p.edits| && !Holds(s.refs, p.edits[p.phase.passed]) {
        FailureIsFirst(s.refs, p.edits, p.phase.passed);
      }
    }
  }

  lemma ReplaySnoc(refs: Refs, batches: seq<seq<RefEdit>>, log: seq<LogEntry>, e: LogEntry)
    requires e.pid < |batches| && forall x <- log :: x.pid < |batches|
    requires Atomic(refs, batches, log)
    requires e.outcome == OutcomeOf(ApplyBatch(Replay(refs, batches, log), batches[e.pid]))
    ensures forall x <- log + [e] :: x.pid < |batches|
    ensures Atomic(refs, batches, log + [e])
    ensures var r := ApplyBatch(Replay(refs, batches, log), batches[e.pid]);
            Replay(refs, batches, log + [e]) == if r.Ok? then r.value else Replay(refs, batches, log)
  {
    assert (log + [e])[..|log + [e]| - 1] == log;
  }

  lemma NextKeepsBatches(s: State, l: Label)
    ensures Batches(Next(s, l)) == Batches(s)
  {
  }

  lemma NextTouchesOne(s: State, l: Label)
    ensures var t := Next(s, l);
      t == s ||
      (&& l.pid < |s.procs| == |t.procs| && Unfinished(s.procs[l.pid])
       && (forall q :: 0 <= q < |s.procs| && q != l.pid ==> t.procs[q] == s.procs[q])
       && (l.fails ==> t.procs[l.pid].phase == Finished(Err(Backend)))
       && (l.fails ==> t.log == s.log)
       && (!l.fails && t.procs[l.pid].phase.Finished? ==>
             t.procs[l.pid].phase.outcome != Err(Backend) && t.log != s.log))
  {
    hide ApplyBatch, Holds;
    var t := Next(s, l);
    if t.log != s.log { assert |t.log| == |s.log| + 1; }
  }

  lemma LoggedStep(s: State, l: Label)
    requires Inv(s) && Logged(s)
    ensures Logged(Next(s, l))
  {
    hide Next;
    StepIsAtomic(s, l);
    NextTouchesOne(s, l);
    var t := Next(s, l);
    if t.log != s.log {
      LogOne(s, t, l.pid);
    } else if t != s {
      LogNone(s, t, l.pid);
    }
  }

  lemma LogNone(s: State, t: State, pid: nat)
    requires Logged(s) && pid < |s.procs| == |t.procs| && Unfinished(s.procs[pid]) && t.log == s.log
    requires t.procs[pid].phase.Finished? ==> t.procs[pid].phase.outcome == Err(Backend)
    requires forall q :: 0 <= q < |s.procs| && q != pid ==> t.procs[q] == s.procs[q]
    ensures Logged(t)
  {
  }

  lemma LogOne(s: State, t: State, pid: nat)
    requires Logged(s) && pid < |s.procs| == |t.procs| && Unfinished(s.procs[pid]) && t.procs[pid].phase.Finished?
    requires forall q :: 0 <= q < |s.procs| && q != pid ==> t.procs[q] == s.procs[q]
    requires t.log == s.log + [LogEntry(pid, t.procs[pid].phase.outcome)]
    ensures Logged(t)
  {
    assert t.log[|s.log|] == LogEntry(pid, t.procs[pid].phase.outcome);
    forall i | 0 <= i < |s.log| ensures s.log[i].pid != pid { assert s.log[i] in s.log; }
    forall p | 0 <= p < |t.procs| && t.procs[p].phase.Finished? && t.procs[p].phase.outcome != Err(Backend)
      ensures LogEntry(p, t.procs[p].phase.outcome) in t.log
    {
      if p != pid { assert LogEntry(p, s.procs[p].phase.outcome) in s.log; }
    }
  }

  /** `t` is the batches of `s` applied atomically in the order of its log: its refs are what that leaves,
      every logged outcome is the one it gives, and the log has every process that finished without
      failing for want of a backend exactly once, and no other. */
  ghost predicate Linear(s: State, t: State) {
    && Batches(t) == Batches(s) && Logged(t)
    && Atomic(s.refs, Batches(s), t.log)
    && t.refs == Replay(s.refs, Batches(s), t.log)
  }

  lemma NextKeepsLinear(s: State, m: State, l: Label)
    requires Inv(m) && Linear(s, m)
    ensures Linear(s, Next(m, l))
  {
    hide Next;
    StepIsAtomic(m, l);
    NextKeepsBatches(m, l);
    LoggedStep(m, l);
    if Next(m, l).log != m.log {
      assert Batches(m)[l.pid] == m.procs[l.pid].edits;
      ReplaySnoc(s.refs, Batches(s), m.log, Next(m, l).log[|m.log|]);
    }
  }

  /** Every run of the locked batches is a run of atomic ones, in log order. */
  lemma {:induction false} Linearizable(s: State, labels: seq<Label>)
    requires Initial(s)
    ensures Linear(s, Exec(s, labels))
  {
    if labels == [] {
      assert forall p :: 0 <= p < |s.procs| ==> s.procs[p] in s.procs;
    } else {
      var front := labels[..|labels| - 1];
      Linearizable(s, front);
      ExecKeepsInv(s, front);
      NextKeepsLinear(s, Exec(s, front), labels[|labels| - 1]);
    }
  }

  // ---- who fails for want of a backend ----

  /** The `n`th step is one at which `pid`, not yet finished, fails. */
  ghost predicate GivesUp(s: State, labels: seq<Label>, pid: nat, n: nat)
    requires n < |labels|
  {
    var m := Exec(s, labels[..n]);
    labels[n] == Label(pid, true) && pid < |m.procs| && Unfinished(m.procs[pid])
  }

  ghost predicate EverGivesUp(s: State, labels: seq<Label>, pid: nat) {
    exists n :: 0 <= n < |labels| && GivesUp(s, labels, pid, n)
  }

  lemma GivesUpOn(s: State, front: seq<Label>, l: Label, pid: nat)
    ensures EverGivesUp(s, front + [l], pid) <==>
            EverGivesUp(s, front, pid) ||
            (l == Label(pid, true) && pid < |Exec(s, front).procs| && Unfinished(Exec(s, front).procs[pid]))
  {
    var all := front + [l];
    assert all[..|front|] == front;
    forall n | 0 <= n < |front| ensures GivesUp(s, all, pid, n) <==> GivesUp(s, front, pid, n) {
      assert all[..n] == front[..n];
    }
    if EverGivesUp(s, front, pid) {
      var n :| 0 <= n < |front| && GivesUp(s, front, pid, n);
      assert GivesUp(s, all, pid, n);
    }
    assert GivesUp(s, all, pid, |front|) <==>
           (l == Label(pid, true) && pid < |Exec(s, front).procs| && Unfinished(Exec(s, front).procs[pid]));
  }

  /** Nothing but a failing step of its own ends a process in a failure of the backend: an expectation that
      does not hold never does. */
  lemma {:induction false} BackendExactly(s: State, labels: seq<Label>, pid: nat)
    requires pid < |s.procs| && Unfinished(s.procs[pid])
    ensures var t := Exec(s, labels);
      && |t.procs| == |s.procs|
      && (t.procs[pid].phase == Finished(Err(Backend)) <==> EverGivesUp(s, labels, pid))
  {
    if labels != [] {
      var front, l := labels[..|labels| - 1], labels[|labels| - 1];
      assert labels == front + [l];
      BackendExactly(s, front, pid);
      GivesUpOn(s, front, l, pid);
      NextTouchesOne(Exec(s, front), l);
      hide Next;
    }
  }

  /** If no step fails, the log has every finished process, with the outcome it reports: that of its batch,
      applied atomically at its place in the log. */
  lemma WithoutFailures(s: State, labels: seq<Label>, pid: nat)
    requires Initial(s) && pid < |s.procs| && forall l <- labels :: !l.fails
    ensures var t := Exec(s, labels);
      && Linear(s, t) && |t.procs| == |s.procs|
      && (t.procs[pid].phase.Finished? ==> LogEntry(pid, t.procs[pid].phase.outcome) in t.log)
  {
    assert s.procs[pid] in s.procs;
    Linearizable(s, labels);
    BackendExactly(s, labels, pid);
    hide Exec, Atomic, Replay;
  }

  // ---- progress ----

  predicate Unfinished(p: Process) { !p.phase.Finished? }

  predicate Waits(s: State, pid: nat)
    requires pid < |s.procs|
  {
    var p := s.procs[pid];
    p.phase.Locking? && p.phase.held < |p.names| && EncodeRef(p.names[p.phase.held]) in s.locks
  }

  function Wanted(p: Process): Text
    requires p.phase.Locking? && p.phase.held < |p.names|
  {
    p.names[p.phase.held]
  }

  /** Whoever holds the lock a process waits for is unfinished, and if it waits too, then for a
      strictly greater name. */
  lemma HolderIsAhead(s: State, pid: nat) returns (holder: nat)
    requires Inv(s) && pid < |s.procs| && Waits(s, pid)
    ensures holder < |s.procs| && Unfinished(s.procs[holder])
    ensures Waits(s, holder) ==> TextLess(Wanted(s.procs[pid]), Wanted(s.procs[holder]))
  {
    var want := Wanted(s.procs[pid]);
    holder := s.locks[EncodeRef(want)];
    var q := s.procs[holder];
    assert ProcessOk(s.refs, q);
    assert Reached(q, EncodeRef(want));
    var i :| 0 <= i < Held(q) && EncodeRef(q.names[i]) == EncodeRef(want);
    EncodeRefInjective(q.names[i]);
    EncodeRefInjective(want);
    assert q.names[i] == want;
  }

  /** The waiting process whose wanted name is greatest. */
  lemma {:induction false} GreatestWaiter(s: State, n: nat) returns (best: nat)
    requires n <= |s.procs| && exists p :: 0 <= p < n && Waits(s, p)
    ensures best < n && Waits(s, best)
    ensures forall p :: 0 <= p < n && Waits(s, p) ==> !TextLess(Wanted(s.procs[best]), Wanted(s.procs[p]))
  {
    TextTotal();
    if exists p :: 0 <= p < n - 1 && Waits(s, p) {
      best := GreatestWaiter(s, n - 1);
      if Waits(s, n - 1) && TextLess(Wanted(s.procs[best]), Wanted(s.procs[n - 1])) {
        best := n - 1;
      }
    } else {
      best := n - 1;
    }
  }

  /** Acquisition cannot deadlock: while a process is unfinished, some process can step. */
  lemma NoDeadlock(s: State, pid: nat) returns (able: nat)
    requires Inv(s) && pid < |s.procs| && Unfinished(s.procs[pid])
    ensures able < |s.procs| && Unfinished(s.procs[able]) && !Waits(s, able)
    ensures Next(s, Label(able, false)) != s
  {
    able := pid;
    if Waits(s, pid) {
      var best := GreatestWaiter(s, |s.procs|);
      able := HolderIsAhead(s, best);
    }
    assert ProcessOk(s.refs, s.procs[able]);
    var t := Next(s, Label(able, false));
    assert t.procs[able].phase != s.procs[able].phase;
  }

  function Remaining(p: Process): nat {
    match p.phase
    case Locking(h) => (if h <= |p.names| then |p.names| - h else 0) + |p.edits| + 2
    case Checking(j) => (if j <= |p.edits| then |p.edits| - j else 0) + 1
    case Finished(_) => 0
  }

  function Work(procs: seq<Process>): nat {
    if procs == [] then 0 else Remaining(procs[0]) + Work(procs[1..])
  }

  lemma {:induction false} WorkUpdate(procs: seq<Process>, i: nat, p: Process)
    requires i < |procs|
    ensures Work(procs[i := p]) == Work(procs) - Remaining(procs[i]) + Remaining(p)
  {
    if i == 0 {
      assert procs[i := p][1..] == procs[1..];
    } else {
      assert procs[i := p][1..] == procs[1..][i - 1 := p];
      WorkUpdate(procs[1..], i - 1, p);
    }
  }

  lemma {:induction false} ExecConcat(s: State, a: seq<Label>, b: seq<Label>)
    ensures Exec(s, a + b) == Exec(Exec(s, a), b)
  {
    if b == [] {
      assert a + b == a;
    } else {
      assert (a + b)[..|a + b| - 1] == a + b[..|b| - 1];
      ExecConcat(s, a, b[..|b| - 1]);
    }
  }

  lemma StepShrinksWork(s: State, pid: nat)
    requires Inv(s) && pid < |s.procs| && Unfinished(s.procs[pid]) && !Waits(s, pid)
    ensures Work(Next(s, Label(pid, false)).procs) < Work(s.procs)
  {
    assert ProcessOk(s.refs, s.procs[pid]);
    var p := Next(s, Label(pid, false)).procs[pid];
    assert Next(s, Label(pid, false)).procs == s.procs[pid := p];
    WorkUpdate(s.procs, pid, p);
  }

  /** What a schedule without failing steps leaves of the processes of `s`: all are finished, those that were
      not before with an outcome of their batch. */
  ghost predicate Drained(s: State, t: State) {
    && |t.procs| == |s.procs|
    && forall p :: 0 <= p < |s.procs| ==>
         if Unfinished(s.procs[p]) then t.procs[p].phase.Finished? && t.procs[p].phase.outcome != Err(Backend)
         else t.procs[p] == s.procs[p]
  }

  lemma DrainedOn(s: State, l: Label, t: State)
    requires !l.fails && Drained(Next(s, l), t)
    ensures Drained(s, t)
  {
    NextTouchesOne(s, l);
    hide Next;
  }

  lemma DrainedLogged(s: State, t: State)
    requires Drained(s, t) && Logged(t)
    ensures forall p :: 0 <= p < |s.procs| && Unfinished(s.procs[p]) ==>
              LogEntry(p, t.procs[p].phase.outcome) in t.log
  {
  }

  /** From every reachable state the processes can all finish with no timeout at all, each of them with an
      outcome of its batch, which the log then has. */
  lemma {:induction false} CanDrain(s: State) returns (labels: seq<Label>)
    requires Inv(s)
    ensures forall l <- labels :: !l.fails
    ensures var t := Exec(s, labels);
      Drained(s, t) && (Logged(s) ==>
        && Logged(t)
        && forall p :: 0 <= p < |s.procs| && Unfinished(s.procs[p]) ==>
             LogEntry(p, t.procs[p].phase.outcome) in t.log)
    decreases Work(s.procs)
  {
    hide Inv, Logged, Next;
    labels := [];
    if exists pid :: 0 <= pid < |s.procs| && Unfinished(s.procs[pid]) {
      var pid :| 0 <= pid < |s.procs| && Unfinished(s.procs[pid]);
      var able := NoDeadlock(s, pid);
      var l := Label(able, false);
      NextKeepsInv(s, l);
      StepShrinksWork(s, able);
      var rest := CanDrain(Next(s, l));
      labels := [l] + rest;
      ExecConcat(s, [l], rest);
      assert [l][..0] == [] && Exec(s, [l]) == Next(Exec(s, []), l);
      DrainedOn(s, l, Exec(s, labels));
      if Logged(s) { LoggedStep(s, l); }
    }
    if Logged(s) { DrainedLogged(s, Exec(s, labels)); }
  }
}
