/** One client's view of a ref store that others write to: before each of its accesses the others may
    have moved the refs anywhere, and the clock on. `seen` and `landed` record what it met and did. */
module SharedStore {
  import opened Wrappers
  import opened Order
  import opened Objects
  import opened RefStore

  /** What happens before one access: the refs the others leave behind, if they moved any. */
  datatype Move = Move(refs: Option<Refs>, stamp: int)

  datatype Access = Access(refs: Refs, stamp: int)

  datatype Landing = Landing(before: Refs, edits: seq<RefEdit>)

  /** What an access meets where `at` stood before: the others go first, if any is waiting to. */
  function Meet(at: Access, moves: seq<Move>): Access {
    if moves == [] then at
    else Access(if moves[0].refs.Some? then moves[0].refs.value else at.refs, moves[0].stamp)
  }

  function Rest(moves: seq<Move>, n: nat): seq<Move> { if n <= |moves| then moves[n..] else [] }

  function Later(moves: seq<Move>): seq<Move> { Rest(moves, 1) }

  /** What stands at the `n`th access from `start` on if only the others, queued as `queued`, have written. */
  function OnlyOthers(start: Access, queued: seq<Move>, n: nat): Access {
    if n == 0 then start else Meet(OnlyOthers(start, queued, n - 1), Rest(queued, n - 1))
  }

  function Last(start: Access, did: seq<Access>): Access { if did == [] then start else did[|did| - 1] }

  /** The accesses `did` are those a client makes from `start` on, with `queued` to come before and `left`
      after: each meets what the others have left by then, and nothing else has written in between. */
  ghost predicate Served(start: Access, queued: seq<Move>, did: seq<Access>, left: seq<Move>) {
    left == Rest(queued, |did|) && forall i :: 0 <= i < |did| ==> did[i] == OnlyOthers(start, queued, i + 1)
  }

  /** One access after another: each is met where the one before it stood. */
  lemma ServedInTurn(start: Access, queued: seq<Move>, did: seq<Access>, left: seq<Move>)
    requires Served(start, queued, did, left)
    ensures Last(start, did) == OnlyOthers(start, queued, |did|)
    ensures did != [] ==> did[0] == Meet(start, queued)
    ensures forall i :: 0 < i < |did| ==> did[i] == Meet(did[i - 1], Rest(queued, i))
  {
    if did != [] { assert OnlyOthers(start, queued, 0) == start && Rest(queued, 0) == queued; }
    forall i | 0 < i < |did| ensures did[i] == Meet(did[i - 1], Rest(queued, i)) {
      assert did[i] == OnlyOthers(start, queued, i + 1) && did[i - 1] == OnlyOthers(start, queued, i);
    }
  }

  lemma ServedOn(start: Access, queued: seq<Move>, did: seq<Access>, left: seq<Move>, a: Access)
    requires Served(start, queued, did, left) && a == Meet(Last(start, did), left)
    ensures Served(start, queued, did + [a], Later(left))
  {
    ServedInTurn(start, queued, did, left);
    forall i | 0 <= i <= |did| ensures (did + [a])[i] == OnlyOthers(start, queued, i + 1) {}
  }

  lemma ServedTwice(start: Access, queued: seq<Move>, did: seq<Access>, left: seq<Move>, b: Access, c: Access)
    requires Served(start, queued, did, left) && b == Meet(Last(start, did), left) && c == Meet(b, Later(left))
    ensures Served(start, queued, did + [b, c], Later(Later(left)))
  {
    ServedOn(start, queued, did, left, b);
    ServedOn(start, queued, did + [b], Later(left), c);
    assert did + [b] + [c] == did + [b, c];
  }

  lemma ServedFirst(start: Access, queued: seq<Move>)
    ensures Served(start, queued, [Meet(start, queued)], Later(queued))
  {
    ServedOn(start, queued, [], queued, Meet(start, queued));
    assert [] + [Meet(start, queued)] == [Meet(start, queued)];
  }

  /** Every access uses up one of those to come, while there are any. */
  lemma ServedLater(start: Access, queued: seq<Move>, did: seq<Access>, left: seq<Move>, a: Access)
    requires Served(start, queued, did, left) && did != []
    ensures queued == [] ==> left == []
    ensures queued != [] ==> |left| < |queued| && |Later(left)| < |queued|
  {
  }

  lemma {:induction false} OthersAdd(start: Access, queued: seq<Move>, m: nat, n: nat)
    ensures OnlyOthers(OnlyOthers(start, queued, m), Rest(queued, m), n) == OnlyOthers(start, queued, m + n)
    ensures Rest(Rest(queued, m), n) == Rest(queued, m + n)
    decreases n
  {
    if n > 0 { OthersAdd(start, queued, m, n - 1); }
  }

  /** Two stretches of accesses, the second begun where the first ended, are one. */
  lemma ServedAppend(start: Access, queued: seq<Move>, did: seq<Access>, mid: seq<Move>, more: seq<Access>,
                     left: seq<Move>)
    requires Served(start, queued, did, mid) && Served(Last(start, did), mid, more, left)
    ensures Served(start, queued, did + more, left) && Last(start, did + more) == Last(Last(start, did), more)
  {
    hide OnlyOthers, Rest;
    ServedInTurn(start, queued, did, mid);
    OthersAdd(start, queued, |did|, |more|);
    forall i | 0 <= i < |did + more| ensures (did + more)[i] == OnlyOthers(start, queued, i + 1) {
      if i >= |did| {
        assert (did + more)[i] == more[i - |did|];
        OthersAdd(start, queued, |did|, i - |did| + 1);
      }
    }
  }

  lemma {:induction false} OthersAlone(start: Access, n: nat)
    ensures OnlyOthers(start, [], n) == start
    decreases n
  {
    if n > 0 { OthersAlone(start, n - 1); }
  }

  /** With nobody in between, every access meets what stood at the start. */
  lemma ServedAlone(start: Access, did: seq<Access>, left: seq<Move>)
    requires Served(start, [], did, left)
    ensures left == [] && Last(start, did) == start && forall i :: 0 <= i < |did| ==> did[i] == start
  {
    forall i | 0 <= i < |did| ensures did[i] == start { OthersAlone(start, i + 1); }
  }

  class SharedStore {
    const memory: MemoryRefStore
    var clock: int
    var moves: seq<Move>
    ghost var seen: seq<Access>
    ghost var landed: seq<Landing>

    constructor (memory: MemoryRefStore, moves: seq<Move>)
      ensures this.memory == memory && this.moves == moves && seen == [] && landed == []
    {
      this.memory := memory;
      this.clock := 0;
      this.moves := moves;
      this.seen := [];
      this.landed := [];
    }

    ghost function Now(): Access
      reads this, memory
    {
      Access(memory.refs, clock)
    }

    /** The others go first. */
    method Yield()
      modifies this, memory
      ensures Now() == Meet(old(Now()), old(moves)) && moves == Later(old(moves))
      ensures seen == old(seen) + [Now()] && landed == old(landed)
    {
      if moves != [] {
        clock := moves[0].stamp;
        if moves[0].refs.Some? { memory.refs := moves[0].refs.value; }
        moves := moves[1..];
      }
      seen := seen + [Access(memory.refs, clock)];
    }

    method ReadRef(name: Text) returns (r: Option<Object>)
      modifies this, memory
      ensures Now() == Meet(old(Now()), old(moves)) && moves == Later(old(moves))
      ensures seen == old(seen) + [Now()] && landed == old(landed)
      ensures r == Read(memory.refs, name)
    {
      Yield();
      r := memory.ReadRef(name);
    }

    method Prefixed(prefix: Text) returns (out: seq<(Text, Object)>)
      modifies this, memory
      ensures Now() == Meet(old(Now()), old(moves)) && moves == Later(old(moves))
      ensures seen == old(seen) + [Now()] && landed == old(landed)
      ensures out == SortedUnder(memory.refs, prefix)
    {
      Yield();
      out := memory.Prefixed(prefix);
    }

    /** Everything or nothing, against the refs as the others left them. */
    method Apply(edits: seq<RefEdit>) returns (r: Result<(), LostRace>)
      modifies this, memory
      ensures moves == Later(old(moves)) && seen == old(seen) + [Meet(old(Now()), old(moves))]
      ensures clock == Meet(old(Now()), old(moves)).stamp
      ensures match ApplyBatch(Meet(old(Now()), old(moves)).refs, edits)
              case Ok(after) =>
                && r == Ok(()) && memory.refs == after
                && landed == old(landed) + [Landing(Meet(old(Now()), old(moves)).refs, edits)]
              case Err(e) => r == Err(e) && Now() == Meet(old(Now()), old(moves)) && landed == old(landed)
    {
      Yield();
      ghost var before := memory.refs;
      r := memory.Apply(edits);
      if r.Ok? { landed := landed + [Landing(before, edits)]; }
    }
  }
}
