/** `Store::commit_forward` and `Store::ref_history` against a contended store (`git-store/src/store.rs`). */
module StoreClient {
  import opened Wrappers
  import opened Order
  import opened Objects
  import opened RefStore
  import opened SharedStore
  import opened CommitForward
  import Messages

  /** The steps of a client of `CommitForward` at one access: the read, with the building that follows it
      without an access of its own, or the compare-and-swap. */
  function Turned(name: Text, job: Job, phase: Phase, a: Access): Phase {
    var l := Label(0, a.stamp, false);
    var s := Next(name, [job], State(a.refs, [phase], []), l);
    if s.phases[0].AtBuild? then Next(name, [job], s, l).phases[0] else s.phases[0]
  }

  /** Where the client stands after the accesses `did`, whatever the others do between them. */
  function Follow(name: Text, job: Job, did: seq<Access>): Phase {
    if did == [] then AtRead else Turned(name, job, Follow(name, job, did[..|did| - 1]), did[|did| - 1])
  }

  /** No shorter run of the client ends. */
  ghost predicate EndsNow(name: Text, job: Job, did: seq<Access>) {
    forall i :: 0 <= i < |did| ==> !Follow(name, job, did[..i]).Done?
  }

  lemma NothingFollowed(name: Text, job: Job)
    ensures Follow(name, job, []) == AtRead && EndsNow(name, job, [])
  {
  }

  /** Run on from where it reads again, it goes as from the start. */
  lemma {:induction false} FollowAppend(name: Text, job: Job, did: seq<Access>, more: seq<Access>)
    requires Follow(name, job, did) == AtRead && EndsNow(name, job, did) && EndsNow(name, job, more)
    ensures Follow(name, job, did + more) == Follow(name, job, more) && EndsNow(name, job, did + more)
  {
    hide Turned;
    if more == [] {
      assert did + more == did;
    } else {
      var n := |more| - 1;
      assert (did + more)[..|did + more| - 1] == did + more[..n];
      forall i | 0 <= i < n ensures !Follow(name, job, more[..n][..i]).Done? {
        assert more[..n][..i] == more[..i];
      }
      FollowAppend(name, job, did, more[..n]);
      forall i | 0 <= i < |did + more| ensures !Follow(name, job, (did + more)[..i]).Done? {
        if i < |did + more[..n]| {
          assert (did + more)[..i] == (did + more[..n])[..i];
        } else {
          assert (did + more)[..i] == did + more[..n];
        }
      }
    }
  }

  /** The read, with its building, is a step of the client. */
  lemma ReadFollows(name: Text, job: Job, a: Access)
    ensures var parent, phase := Read(a.refs, name), Follow(name, job, [a]);
      && EndsNow(name, job, [a])
      && if Refusal(job, parent).Some? then phase == Done(None)
         else
           phase == AtApply(parent, Commit(job.build(parent).value, Parents(parent), job.message, a.stamp), a.stamp)
  {
    assert [a][..0] == [];
  }

  /** And so is the compare-and-swap. */
  lemma ApplyFollows(name: Text, job: Job, a: Access, b: Access)
    requires Follow(name, job, [a]).AtApply?
    ensures var p, phase := Follow(name, job, [a]), Follow(name, job, [a, b]);
      && EndsNow(name, job, [a, b])
      && phase == if ApplyBatch(b.refs, [EditOf(name, p.parent, p.commit)]).Ok? then Done(Some(p.commit)) else AtRead
  {
    assert [a, b][..1] == [a] && [a, b][..0] == [];
  }

  /** The job's commit landed, over the refs of the last access. */
  ghost predicate Landed(name: Text, job: Job, c: Object, did: seq<Access>, landed: seq<Landing>)
    requires did != []
  {
    var before := did[|did| - 1].refs;
    && c.Commit? && Built(job, Read(before, name), c, c.stamp)
    && landed == [Landing(before, [EditOf(name, Read(before, name), c)])]
  }

  /** One turn of the loop: nothing when its race is lost. */
  method Attempt(store: SharedStore, name: Text, message: Text, build: Builder)
    returns (r: Option<Result<Object, ForwardError>>, ghost did: seq<Access>, ghost landed: seq<Landing>)
    modifies store, store.memory
    ensures store.seen == old(store.seen) + did && store.landed == old(store.landed) + landed
    ensures 1 <= |did| <= 2 && Served(old(store.Now()), old(store.moves), did, store.moves)
    ensures EndsNow(name, Job(build, message), did)
    ensures Follow(name, Job(build, message), did) ==
            if r == None then AtRead else Done(if r.value.Ok? then Some(r.value.value) else None)
    ensures if r.Some? && r.value.Ok?
            then Landed(name, Job(build, message), r.value.value, did, landed) &&
                 store.memory.refs == did[|did| - 1].refs[name := r.value.value]
            else landed == [] && store.Now() == Last(old(store.Now()), did)
    ensures r.Some? && r.value.Err? ==>
              Refusal(Job(build, message), Read(store.memory.refs, name)) == Some(r.value.error)
    ensures r == None ==> |did| == 2 && |store.moves| < |old(store.moves)|
    ensures r.Some? && r.value.Ok? && old(store.moves) == [] ==>
              Refusal(Job(build, message), Read(old(store.memory.refs), name)) == None
  {
    hide ApplyBatch, Next, Turned, Follow, EndsNow, Served;
    ghost var start, queued, job := store.Now(), store.moves, Job(build, message);
    landed := [];
    var parent := store.ReadRef(name);
    ghost var first, left := store.Now(), store.moves;
    did := [first];
    ServedFirst(start, queued);
    ReadFollows(name, job, first);
    var tree := build(parent);
    if tree == None { return Some(Err(NotBuilt)), did, landed; }
    var reserved := Messages.Validate(message);
    if reserved.Some? { return Some(Err(TrailerReserved)), did, landed; }
    var commit := Commit(tree.value, Parents(parent), message, store.clock);
    var edit := match parent
      case Some(expected) => Update(name, expected, commit)
      case None => Create(name, commit);
    ghost var last := Meet(first, left);
    var applied := store.Apply([edit]);
    ApplyOne(last.refs, edit);
    ApplyFollows(name, job, first, last);
    ServedOn(start, queued, did, left, last);
    assert [first] + [last] == [first, last];
    Assoc(old(store.seen), [first], [last]);
    did := [first, last];
    if applied.Err? { return None, did, landed; }
    return Some(Ok(commit)), did, [Landing(last.refs, [edit])];
  }

  /** A commit reported as landed sits on exactly the value it displaced, and holds what the builder
      makes of that value; every earlier attempt came to nothing. It fails only over a value the job is
      refused over, which the ref then holds; with nobody in between, exactly then. Its accesses are a run of
      a client of `CommitForward` that ends with the last of them, and as it returns. */
  method Forward(store: SharedStore, name: Text, message: Text, build: Builder)
    returns (r: Result<Object, ForwardError>, ghost did: seq<Access>)
    modifies store, store.memory
    ensures store.seen == old(store.seen) + did && 1 <= |did| <= 2 * (|old(store.moves)| + 1)
    ensures Served(old(store.Now()), old(store.moves), did, store.moves)
    ensures Follow(name, Job(build, message), did) == Done(if r.Ok? then Some(r.value) else None)
    ensures EndsNow(name, Job(build, message), did)
    ensures r.Err? ==> store.landed == old(store.landed)
    ensures r.Err? ==> store.Now() == OnlyOthers(old(store.Now()), old(store.moves), |did|)
    ensures r.Err? && old(store.moves) == [] ==> store.memory.refs == old(store.memory.refs)
    ensures r.Err? ==> Refusal(Job(build, message), Read(store.memory.refs, name)) == Some(r.error)
    ensures old(store.moves) == [] ==>
      (r.Ok? <==> Refusal(Job(build, message), Read(old(store.memory.refs), name)) == None)
    ensures r.Ok? ==>
      var before := did[|did| - 1].refs;
      && r.value.Commit? && Built(Job(build, message), Read(before, name), r.value, r.value.stamp)
      && store.landed == old(store.landed) + [Landing(before, [EditOf(name, Read(before, name), r.value)])]
      && store.memory.refs == before[name := r.value]
  {
    ghost var start, queued, job := store.Now(), store.moves, Job(build, message);
    did := [];
    NothingFollowed(name, job);
    while true
      invariant Follow(name, job, did) == AtRead && EndsNow(name, job, did)
      invariant store.seen == old(store.seen) + did && store.landed == old(store.landed)
      invariant Served(start, queued, did, store.moves) && store.Now() == Last(start, did)
      invariant |did| + 2 * |store.moves| <= 2 * |queued|
      invariant queued == [] ==> store.Now() == start
      decreases |store.moves|
    {
      ghost var left := store.moves;
      var outcome, more, landed := Attempt(store, name, message, build);
      FollowAppend(name, job, did, more);
      ServedAppend(start, queued, did, left, more, store.moves);
      ServedInTurn(start, queued, did + more, store.moves);
      Assoc(old(store.seen), did, more);
      did := did + more;
      if outcome.Some? { return outcome.value, did; }
    }
  }

  predicate AllCommits(walk: seq<Object>) { forall i :: 0 <= i < |walk| ==> walk[i].Commit? }

  lemma WalkOn(out: seq<Object>, id: Object)
    ensures out + FirstParents(id) ==
            (out + [id]) + if id.Commit? && id.parents != [] then FirstParents(id.parents[0]) else []
  {
    var rest := if id.Commit? && id.parents != [] then FirstParents(id.parents[0]) else [];
    assert FirstParents(id) == [id] + rest;
    Assoc(out, [id], rest);
  }

  /** The loop of `ref_history`: it ends, having collected the whole first-parent walk, unless the walk
      leaves the commits. */
  method Walk(start: Option<Object>) returns (r: Result<seq<Object>, Object>)
    ensures match start
            case None => r == Ok([])
            case Some(tip) => if AllCommits(FirstParents(tip)) then r == Ok(FirstParents(tip))
                              else r.Err? && r.error in FirstParents(tip) && !r.error.Commit?
  {
    if start == None { return Ok([]); }
    ghost var walk := FirstParents(start.value);
    var cursor := start;
    var out: seq<Object> := [];
    assert out + walk == walk;
    while cursor.Some?
      invariant AllCommits(out) && walk == out + if cursor.Some? then FirstParents(cursor.value) else []
      decreases if cursor.Some? then Depth(cursor.value) else 0
    {
      var id := cursor.value;
      WalkOn(out, id);
      out := out + [id];
      assert walk[|out| - 1] == id;
      if !id.Commit? { return Err(id); }
      cursor := if id.parents == [] then None else Some(id.parents[0]);
    }
    assert walk == out;
    return Ok(out);
  }

  /** History of a ref, from one read of it. */
  method RefHistory(store: SharedStore, name: Text) returns (r: Result<seq<Object>, Object>)
    modifies store, store.memory
    ensures store.Now() == Meet(old(store.Now()), old(store.moves)) && store.moves == Later(old(store.moves))
    ensures store.seen == old(store.seen) + [store.Now()]
    ensures store.landed == old(store.landed)
    ensures match Read(store.memory.refs, name)
            case None => r == Ok([])
            case Some(tip) => if AllCommits(FirstParents(tip)) then r == Ok(FirstParents(tip))
                              else r.Err? && r.error in FirstParents(tip) && !r.error.Commit?
  {
    var tip := store.ReadRef(name);
    r := Walk(tip);
  }
}
