/** One compare-and-swap batch over any number of entities and kinds (`git-store/src/transaction.rs`). */
module Transaction {
  import opened Wrappers
  import opened Order
  import opened Objects
  import opened RefStore
  import opened SharedStore
  import opened Names
  import opened Layout
  import opened Tombstones
  import opened Kind
  import opened KindClient
  import Index
  import Messages

  /** `name` is the alias, or the canonical name of the document or of `id`. */
  datatype Staged =
    | Put(kind: Text, name: Path, document: Object, demand: Expectation)
    | Erase(kind: Text, name: Path, id: Object, demand: Expectation)
  {
    predicate Valid() { ValidSegment(kind) && ValidPath(name) }

    function Target(): Text
      requires name != []
    {
      EntityRef(kind, name)
    }
  }

  /** What staging one operation yields: the commit its ref will hold, and the edit that puts it there. */
  datatype Step = Step(commit: Option<Object>, edit: Option<RefEdit>)

  /** `stage_publish` and `stage_delete`, given what the ref held. */
  function Stage(s: Staged, message: Text, current: Option<Object>, stamp: int): Result<Step, Failure>
    requires s.name != []
  {
    match s
    case Put(kind, name, document, demand) =>
      (match Resolve(PublishDocument(kind, name, document, message, None, Some(demand), false), current, stamp)
       case Settled(Failed(f)) => Err(f)
       case Settled(_) => Err(Backend)
       case Ready(r) => Ok(Step(Some(r.commit), r.edit)))
    case Erase(kind, name, id, demand) =>
      if !Matches(demand, current) then Err(Stale(demand))
      else
        match current
        case None => Ok(Step(None, None))
        case Some(c) =>
          match ReadCommit(kind, c)
          case Unreadable => Err(BadDocument)
          case Deleted(_) => Ok(Step(None, None))
          case Present =>
            if !Messages.Accepted(message) then Err(ReservedTrailer)
            else
            var next := Object.Commit(Document(Tombstone(kind, id)), [c], message, stamp);
            Ok(Step(Some(next), Some(Update(EntityRef(kind, name), c, next))))
  }

  // ---- when an operation stages, and as what ----

  /** A staged publication as the publication it is resolved as. */
  function Publication(s: Staged, message: Text): (op: Operation)
    requires s.Put?
    ensures op.PublishDocument? && op.name == s.name
  {
    PublishDocument(s.kind, s.name, s.document, message, None, Some(s.demand), false)
  }

  /** An operation stages over `current`: a publication that is admitted there; a deletion whose demand is met
      by nothing, by a tombstone of the kind, or by a live commit, when the message is accepted. */
  ghost predicate Stages(s: Staged, message: Text, current: Option<Object>) {
    match s
    case Put(_, _, _, _) => Admits(Publication(s, message), current)
    case Erase(kind, _, _, demand) =>
      && Matches(demand, current)
      && (current.Some? ==> Marked(kind, current.value) || (Live(current.value) && Messages.Accepted(message)))
  }

  /** One that does not stage over `current` fails with `f`: the first of its checks to fail. */
  ghost predicate Declines(s: Staged, message: Text, current: Option<Object>, f: Failure) {
    if s.Put? then Denies(Publication(s, message), current, Failed(f))
    else
      match f
      case Stale(e) => e == s.demand && !Matches(s.demand, current)
      case BadDocument =>
        Matches(s.demand, current) && current.Some? && !Live(current.value) && !Marked(s.kind, current.value)
      case ReservedTrailer =>
        Matches(s.demand, current) && current.Some? && Live(current.value) && !Messages.Accepted(message)
      case _ => false
  }

  /** What an operation that stages contributes. A publication: the commit that stands, without an edit, or a
      new one over what the ref held. A deletion: a tombstone over the live commit, and otherwise nothing. */
  ghost function Contributed(s: Staged, message: Text, current: Option<Object>, stamp: int): Step
    requires s.name != []
  {
    if s.Put? then
      if Standing(Publication(s, message), current) then Step(current, None)
      else
        var c := Object.Commit(s.document, if current.Some? then [current.value] else [], message, stamp);
        Step(Some(c), Some(EditOver(s.Target(), current, c)))
    else if current == None || !Live(current.value) then Step(None, None)
    else
      var c := Object.Commit(Document(Tombstone(s.kind, s.id)), [current.value], message, stamp);
      Step(Some(c), Some(Update(s.Target(), current.value, c)))
  }

  lemma StageMeaning(s: Staged, message: Text, current: Option<Object>, stamp: int)
    requires s.name != []
    ensures var r := Stage(s, message, current, stamp);
      if Stages(s, message, current) then r == Ok(Contributed(s, message, current, stamp))
      else r.Err? && Declines(s, message, current, r.error)
  {
    if s.Put? {
      hide Admits, Denies;
      PublishResolves(Publication(s, message), current, stamp);
    } else if current.Some? {
      StateMeaning(s.kind, current.value);
    }
  }

  function EntityEdits(steps: seq<Step>): seq<RefEdit> {
    if steps == [] then [] else EntityEdits(steps[..|steps| - 1]) + Opt(steps[|steps| - 1].edit)
  }

  /** The index deltas of one kind, in staging order. */
  function Deltas(staged: seq<Staged>, steps: seq<Step>, kind: Text): Index.Listed
    requires |steps| <= |staged|
  {
    if steps == [] then []
    else
      var n := |steps| - 1;
      Deltas(staged, steps[..n], kind) +
        if staged[n].kind == kind && steps[n].commit.Some? then [(staged[n].name, steps[n].commit.value)] else []
  }

  function Publications(staged: seq<Staged>, steps: seq<Step>): seq<Object>
    requires |steps| <= |staged|
  {
    if steps == [] then []
    else
      var n := |steps| - 1;
      Publications(staged, steps[..n]) +
        if staged[n].Put? && steps[n].commit.Some? then [steps[n].commit.value] else []
  }

  function Upserted(m: map<Path, Object>, deltas: Index.Listed): map<Path, Object> {
    if deltas == [] then m
    else Upserted(m, deltas[..|deltas| - 1])[deltas[|deltas| - 1].0 := deltas[|deltas| - 1].1]
  }

  ghost predicate AllValid(staged: seq<Staged>) { forall i :: 0 <= i < |staged| ==> staged[i].Valid() }

  ghost predicate DistinctTargets(staged: seq<Staged>)
    requires AllValid(staged)
  {
    forall i, j :: 0 <= i < j < |staged| ==> staged[i].Target() != staged[j].Target()
  }

  /** The edit of a step is the one its operation asked for. */
  ghost predicate StepFor(s: Staged, step: Step)
    requires s.name != []
  {
    && (s.Put? ==> step.commit.Some?)
    && (step.edit.Some? ==>
          && step.commit.Some? && !step.edit.value.Delete?
          && step.edit.value.name == s.Target() && step.edit.value.target == step.commit.value
          && step.edit.value.Expects() == s.demand)
  }

  lemma StagedFor(s: Staged, message: Text, current: Option<Object>, stamp: int)
    requires s.name != [] && Stage(s, message, current, stamp).Ok?
    ensures StepFor(s, Stage(s, message, current, stamp).value)
    ensures Matches(s.demand, current)
    ensures var step := Stage(s, message, current, stamp).value;
      step.commit.Some? && step.edit == None ==> current == step.commit
  {
  }

  // ---- the two loops ----

  lemma StepsSnoc(staged: seq<Staged>, steps: seq<Step>, step: Step, kind: Text)
    requires |steps| < |staged|
    ensures EntityEdits(steps + [step]) == EntityEdits(steps) + Opt(step.edit)
    ensures Deltas(staged, steps + [step], kind) == Deltas(staged, steps, kind) +
      if staged[|steps|].kind == kind && step.commit.Some? then [(staged[|steps|].name, step.commit.value)] else []
    ensures Publications(staged, steps + [step]) == Publications(staged, steps) +
      if staged[|steps|].Put? && step.commit.Some? then [step.commit.value] else []
  {
    assert (steps + [step])[..|steps + [step]| - 1] == steps;
  }

  type DeltaMap = map<Text, Index.Listed>

  ghost predicate Grouped(staged: seq<Staged>, steps: seq<Step>, deltas: DeltaMap)
    requires |steps| <= |staged|
  {
    forall k: Text ::
      && (k in deltas <==> Deltas(staged, steps, k) != [])
      && (k in deltas ==> deltas[k] == Deltas(staged, steps, k))
  }

  function Added(deltas: DeltaMap, kind: Text, name: Path, commit: Object): DeltaMap {
    deltas[kind := (if kind in deltas then deltas[kind] else []) + [(name, commit)]]
  }

  lemma GroupedSnoc(staged: seq<Staged>, steps: seq<Step>, deltas: DeltaMap, step: Step)
    requires |steps| < |staged| && Grouped(staged, steps, deltas)
    ensures var s := staged[|steps|];
      Grouped(staged, steps + [step], if step.commit.Some? then Added(deltas, s.kind, s.name,
              step.commit.value) else deltas)
  {
    forall k: Text { StepsSnoc(staged, steps, step, k); }
  }

  /** What staging accumulates. */
  datatype Plan = Plan(edits: seq<RefEdit>, deltas: DeltaMap, publications: seq<Object>)

  ghost predicate Planned(staged: seq<Staged>, steps: seq<Step>, plan: Plan)
    requires |steps| <= |staged|
  {
    && plan.edits == EntityEdits(steps)
    && Grouped(staged, steps, plan.deltas)
    && plan.publications == Publications(staged, steps)
  }

  method Record(staged: seq<Staged>, ghost steps: seq<Step>, plan: Plan, s: Staged, step: Step) returns (out: Plan)
    requires |steps| < |staged| && s == staged[|steps|] && StepAllowed(s, step) && Planned(staged, steps, plan)
    ensures Planned(staged, steps + [step], out)
  {
    GroupedSnoc(staged, steps, plan.deltas, step);
    StepsSnoc(staged, steps, step, []);
    var edits, publications, deltas := plan.edits, plan.publications, plan.deltas;
    if step.edit.Some? { edits := edits + [step.edit.value]; }
    if step.commit.Some? {
      if s.Put? { publications := publications + [step.commit.value]; }
      deltas := Added(deltas, s.kind, s.name, step.commit.value);
    }
    out := Plan(edits, deltas, publications);
  }

  predicate StepAllowed(s: Staged, step: Step) { s.Put? ==> step.commit.Some? }

  /** Operation `i` staged against what the `i`th access met. */
  function StageAt(staged: seq<Staged>, message: Text, seen: seq<Access>, i: nat): Result<Step, Failure>
    requires AllValid(staged) && i < |staged| && i < |seen|
  {
    assert staged[i].Valid();
    Stage(staged[i], message, Read(seen[i].refs, staged[i].Target()), seen[i].stamp)
  }

  /** Operation `i` stages over what the `i`th access met. */
  ghost predicate StagesAt(staged: seq<Staged>, message: Text, seen: seq<Access>, i: nat)
    requires AllValid(staged) && i < |staged| && i < |seen|
  {
    staged[i].Valid() && Stages(staged[i], message, Read(seen[i].refs, staged[i].Target()))
  }

  /** It stages there, and `step` is what it contributes. */
  ghost predicate StepAt(staged: seq<Staged>, message: Text, seen: seq<Access>, i: nat, step: Step)
    requires AllValid(staged) && i < |staged| && i < |seen|
  {
    && StagesAt(staged, message, seen, i)
    && step == Contributed(staged[i], message, Read(seen[i].refs, staged[i].Target()), seen[i].stamp)
  }

  /** Operation by operation, each stages over the refs met at `seen`, and `steps` are what they contribute. */
  ghost predicate StagedAgainst(staged: seq<Staged>, message: Text, seen: seq<Access>, steps: seq<Step>)
    requires AllValid(staged) && |steps| <= |staged| && |steps| <= |seen|
  {
    forall i :: 0 <= i < |steps| ==> StepAt(staged, message, seen, i, steps[i])
  }

  lemma StageIs(staged: seq<Staged>, message: Text, seen: seq<Access>, i: nat, step: Step)
    requires AllValid(staged) && i < |staged| && i < |seen|
    ensures staged[i].Valid()
    ensures StepAt(staged, message, seen, i, step) <==> StageAt(staged, message, seen, i) == Ok(step)
  {
    assert staged[i].Valid();
    StageMeaning(staged[i], message, Read(seen[i].refs, staged[i].Target()), seen[i].stamp);
    hide Stages, Stage, Contributed, Declines;
  }

  lemma StagedIs(staged: seq<Staged>, message: Text, seen: seq<Access>, steps: seq<Step>, i: nat)
    requires AllValid(staged) && i < |steps| <= |staged| && |steps| <= |seen|
    requires StagedAgainst(staged, message, seen, steps)
    ensures staged[i].Valid()
    ensures Stage(staged[i], message, Read(seen[i].refs, staged[i].Target()), seen[i].stamp) == Ok(steps[i])
  {
    hide StepAt, Stage;
    assert StepAt(staged, message, seen, i, steps[i]);
    StageIs(staged, message, seen, i, steps[i]);
  }

  lemma StagedLonger(staged: seq<Staged>, message: Text, seen: seq<Access>, more: seq<Access>, steps: seq<Step>)
    requires AllValid(staged) && |steps| <= |staged| && |steps| <= |seen|
    requires StagedAgainst(staged, message, seen, steps)
    ensures StagedAgainst(staged, message, seen + more, steps)
  {
    hide Stages, Contributed;
    forall i | 0 <= i < |steps| ensures StepAt(staged, message, seen + more, i, steps[i]) {
      assert (seen + more)[i] == seen[i] && StepAt(staged, message, seen, i, steps[i]);
    }
  }

  lemma StagedOn(staged: seq<Staged>, message: Text, seen: seq<Access>, steps: seq<Step>, a: Access, step: Step)
    requires AllValid(staged) && |steps| < |staged| && |steps| == |seen|
    requires StagedAgainst(staged, message, seen, steps)
    requires StageAt(staged, message, seen + [a], |steps|) == Ok(step)
    ensures StagedAgainst(staged, message, seen + [a], steps + [step])
  {
    hide StepAt, Stage;
    StagedLonger(staged, message, seen, [a], steps);
    StageIs(staged, message, seen + [a], |steps|, step);
  }

  ghost predicate AllMet(refs: Refs, seen: seq<Access>) { forall i :: 0 <= i < |seen| ==> seen[i].refs == refs }

  method StageOne(store: SharedStore, s: Staged, message: Text) returns (r: Result<Step, Failure>, ghost a: Access)
    requires s.Valid()
    modifies store, store.memory
    ensures store.landed == old(store.landed) && store.seen == old(store.seen) + [a]
    ensures a == store.Now() == Meet(old(store.Now()), old(store.moves)) && store.moves == Later(old(store.moves))
    ensures r == Stage(s, message, Read(a.refs, s.Target()), a.stamp)
    ensures if r.Ok? then StepAllowed(s, r.value) else !r.error.Lost?
  {
    var current := store.ReadRef(s.Target());
    a := store.Now();
    r := Stage(s, message, current, store.clock);
  }

  /** The first operation that does not stage ended it, with the `f` it fails with: all before it stage. */
  ghost predicate Refused(staged: seq<Staged>, message: Text, did: seq<Access>, f: Failure)
    requires AllValid(staged)
  {
    && 0 < |did| <= |staged|
    && var n := |did| - 1;
    && !StagesAt(staged, message, did, n)
    && staged[n].Valid() && Declines(staged[n], message, Read(did[n].refs, staged[n].Target()), f)
    && forall i :: 0 <= i < n ==> StagesAt(staged, message, did, i)
  }

  lemma RefusedHere(staged: seq<Staged>, message: Text, did: seq<Access>, steps: seq<Step>, a: Access)
    requires AllValid(staged) && |steps| < |staged| && |steps| == |did|
    requires StagedAgainst(staged, message, did, steps)
    requires StageAt(staged, message, did + [a], |did|).Err?
    ensures Refused(staged, message, did + [a], StageAt(staged, message, did + [a], |did|).error)
  {
    hide Stages, Declines, Contributed, Stage;
    StagedLonger(staged, message, did, [a], steps);
    forall i | 0 <= i < |did| ensures StagesAt(staged, message, did + [a], i) {
      assert StepAt(staged, message, did + [a], i, steps[i]);
    }
    var s := staged[|did|];
    assert s.Valid();
    StageMeaning(s, message, Read(a.refs, s.Target()), a.stamp);
  }

  /** Each operation staged against its own read of its ref; the first that cannot be ends it. */
  method StageAll(store: SharedStore, staged: seq<Staged>, message: Text)
    returns (r: Result<Plan, Failure>, ghost steps: seq<Step>, ghost did: seq<Access>)
    requires AllValid(staged)
    modifies store, store.memory
    ensures store.landed == old(store.landed) && store.seen == old(store.seen) + did
    ensures Served(old(store.Now()), old(store.moves), did, store.moves)
    ensures store.Now() == Last(old(store.Now()), did)
    ensures r.Ok? ==> |steps| == |staged| == |did| && StagedAgainst(staged, message, did, steps)
    ensures if r.Ok? then Planned(staged, steps, r.value) else Refused(staged, message, did, r.error) && !r.error.Lost?
  {
    ghost var start, queued := store.Now(), store.moves;
    steps, did := [], [];
    var plan := Plan([], map[], []);
    for i := 0 to |staged|
      invariant |steps| == i == |did| && store.landed == old(store.landed) && store.seen == old(store.seen) + did
      invariant Served(start, queued, did, store.moves) && store.Now() == Last(start, did)
      invariant StagedAgainst(staged, message, did, steps) && Planned(staged, steps, plan)
    {
      var s := staged[i];
      assert s.Valid();
      ghost var left := store.moves;
      var step, a := StageOne(store, s, message);
      ServedOn(start, queued, did, left, a);
      Assoc(old(store.seen), did, [a]);
      if step.Err? {
        RefusedHere(staged, message, did, steps, a);
        return Err(step.error), steps, did + [a];
      }
      plan := Record(staged, steps, plan, s, step.value);
      StagedOn(staged, message, did, steps, a, step.value);
      did := did + [a];
      steps := steps + [step.value];
    }
    return Ok(plan), steps, did;
  }

  /** A kind's listing with its deltas made, one after another. */
  method UpsertAll(entries: Index.Listed, deltas: Index.Listed, ghost m: map<Path, Object>) returns (out: Index.Listed)
    requires entries == Index.ListingOf(m)
    ensures out == Index.ListingOf(Upserted(m, deltas))
  {
    out := entries;
    for i := 0 to |deltas|
      invariant out == Index.ListingOf(Upserted(m, deltas[..i]))
    {
      assert deltas[..i + 1][..i] == deltas[..i];
      out := Index.Upsert(out, deltas[i].0, deltas[i].1, Upserted(m, deltas[..i]));
    }
    assert deltas[..|deltas|] == deltas;
  }

  // ---- the indexes ----

  /** The edit that brings the index of `kind` to the listing met at `b` with its deltas made, against the
      index ref met at `c`. */
  ghost function IndexEditOf(staged: seq<Staged>, steps: seq<Step>, kind: Text, b: Access, c: Access): Option<RefEdit>
    requires |steps| <= |staged|
  {
    IndexEdit(kind, Read(c.refs, IndexRef(kind)), Upserted(Source(b.refs, kind), Deltas(staged, steps, kind)))
  }

  /** One edit at most for each of `kinds`, in order, each from two accesses of its own. */
  ghost function IndexEdits(staged: seq<Staged>, steps: seq<Step>, kinds: seq<Text>, did: seq<Access>): seq<RefEdit>
    requires |steps| <= |staged| && |did| == 2 * |kinds|
  {
    if kinds == [] then []
    else
      var n := |kinds| - 1;
      IndexEdits(staged, steps, kinds[..n], did[..2 * n]) +
        Opt(IndexEditOf(staged, steps, kinds[n], did[2 * n], did[2 * n + 1]))
  }

  lemma IndexEditsOn(staged: seq<Staged>, steps: seq<Step>, kinds: seq<Text>, did: seq<Access>, kind: Text,
                     b: Access, c: Access)
    requires |steps| <= |staged| && |did| == 2 * |kinds|
    ensures IndexEdits(staged, steps, kinds + [kind], did + [b, c]) ==
            IndexEdits(staged, steps, kinds, did) + Opt(IndexEditOf(staged, steps, kind, b, c))
  {
    assert (kinds + [kind])[..|kinds|] == kinds && (did + [b, c])[..|did|] == did;
  }

  ghost predicate Rising(kinds: seq<Text>) { forall i, j :: 0 <= i < j < |kinds| ==> TextLess(kinds[i], kinds[j]) }

  /** `kinds` are the kinds that have deltas, in order. */
  ghost predicate Touched(staged: seq<Staged>, steps: seq<Step>, kinds: seq<Text>)
    requires |steps| <= |staged|
  {
    Rising(kinds) && forall k: Text :: k in kinds <==> Deltas(staged, steps, k) != []
  }

  method LeastKind(kinds: set<Text>) returns (kind: Text)
    requires kinds != {}
    ensures Total(TextLess) && IsLeast(TextLess, kinds, kind)
  {
    TextTotal();
    ghost var least := LeastExists(TextLess, kinds);
    kind :| kind in kinds && forall j <- kinds :: j == kind || TextLess(kind, j);
  }

  method IndexOne(store: SharedStore, kind: Text, deltas: Index.Listed)
    returns (edit: Option<RefEdit>, ghost b: Access, ghost c: Access)
    modifies store, store.memory
    ensures store.landed == old(store.landed) && store.seen == old(store.seen) + [b, c]
    ensures b == Meet(old(store.Now()), old(store.moves)) && c == Meet(b, Later(old(store.moves)))
    ensures store.Now() == c && store.moves == Later(Later(old(store.moves)))
    ensures edit == IndexEdit(kind, Read(c.refs, IndexRef(kind)), Upserted(Source(b.refs, kind), deltas))
  {
    var entries := SourceEntries(store, kind);
    b := store.Now();
    entries := UpsertAll(entries, deltas, Source(b.refs, kind));
    var index := store.ReadRef(IndexRef(kind));
    c := store.Now();
    Assoc(old(store.seen), [b], [c]);
    edit := Index.Edit(IndexRef(kind), index, entries);
  }

  /** `kinds` are the first of the plan's kinds, in order, and `todo` the rest. */
  ghost predicate Partway(deltas: DeltaMap, kinds: seq<Text>, todo: set<Text>) {
    && Rising(kinds) && todo <= deltas.Keys
    && (forall k: Text :: k in kinds <==> k in deltas && k !in todo)
    && forall k <- kinds, j <- todo :: TextLess(k, j)
  }

  lemma PartwayOn(deltas: DeltaMap, kinds: seq<Text>, todo: set<Text>, kind: Text)
    requires Partway(deltas, kinds, todo) && Total(TextLess) && IsLeast(TextLess, todo, kind)
    ensures Partway(deltas, kinds + [kind], todo - {kind})
  {
    forall i | 0 <= i < |kinds| ensures TextLess(kinds[i], kind) { assert kinds[i] in kinds; }
  }

  /** Each touched kind in order of its name: its listing, its deltas, its index ref, its edit. */
  method IndexAll(store: SharedStore, plan: Plan, ghost staged: seq<Staged>, ghost steps: seq<Step>)
    returns (edits: seq<RefEdit>, ghost kinds: seq<Text>, ghost did: seq<Access>)
    requires |steps| <= |staged| && Planned(staged, steps, plan)
    modifies store, store.memory
    ensures store.landed == old(store.landed) && store.seen == old(store.seen) + did
    ensures Served(old(store.Now()), old(store.moves), did, store.moves)
    ensures store.Now() == Last(old(store.Now()), did)
    ensures Touched(staged, steps, kinds) && |did| == 2 * |kinds|
    ensures edits == EntityEdits(steps) + IndexEdits(staged, steps, kinds, did)
  {
    ghost var start, queued := store.Now(), store.moves;
    edits, kinds, did := plan.edits, [], [];
    var todo := plan.deltas.Keys;
    while todo != {}
      invariant store.landed == old(store.landed) && store.seen == old(store.seen) + did
      invariant Served(start, queued, did, store.moves) && store.Now() == Last(start, did)
      invariant Partway(plan.deltas, kinds, todo) && |did| == 2 * |kinds|
      invariant edits == EntityEdits(steps) + IndexEdits(staged, steps, kinds, did)
      decreases |todo|
    {
      var kind := LeastKind(todo);
      ghost var left := store.moves;
      var edit, b, c := IndexOne(store, kind, plan.deltas[kind]);
      ServedTwice(start, queued, did, left, b, c);
      Assoc(old(store.seen), did, [b, c]);
      IndexEditsOn(staged, steps, kinds, did, kind, b, c);
      Assoc(EntityEdits(steps), IndexEdits(staged, steps, kinds, did), Opt(edit));
      PartwayOn(plan.deltas, kinds, todo, kind);
      kinds, did := kinds + [kind], did + [b, c];
      edits := edits + Opt(edit);
      todo := todo - {kind};
    }
  }

  // ---- the whole transaction ----

  /** How a transaction that staged every operation came to its batch: one access in `staging` for each
      operation, and in `indexing` a listing and then an index ref for each of `kinds`. */
  datatype Trace = Trace(steps: seq<Step>, kinds: seq<Text>, staging: seq<Access>, indexing: seq<Access>)

  ghost predicate Prepared(staged: seq<Staged>, message: Text, t: Trace)
    requires AllValid(staged)
  {
    && |t.steps| == |staged| == |t.staging| && StagedAgainst(staged, message, t.staging, t.steps)
    && Touched(staged, t.steps, t.kinds) && |t.indexing| == 2 * |t.kinds|
  }

  ghost function WholeBatch(staged: seq<Staged>, t: Trace): seq<RefEdit>
    requires |t.steps| <= |staged| && |t.indexing| == 2 * |t.kinds|
  {
    EntityEdits(t.steps) + IndexEdits(staged, t.steps, t.kinds, t.indexing)
  }

  /** What a transaction over the accesses `did` comes to, exactly: refused by the operation its last access
      was for; or, all staged, done with nothing to apply; or its batch landed, or lost its race, at the
      last access. */
  ghost predicate Concluded(staged: seq<Staged>, message: Text, t: Trace, did: seq<Access>,
                            r: Result<seq<Object>, Failure>, landed: seq<Landing>)
    requires AllValid(staged)
  {
    if r.Err? && !r.error.Lost? then landed == [] && Refused(staged, message, did, r.error)
    else
      && Prepared(staged, message, t)
      && var batch, met := WholeBatch(staged, t), t.staging + t.indexing;
      if batch == [] then did == met && landed == [] && r == Ok(Publications(staged, t.steps))
      else
        && |did| == |met| + 1 && did[..|met|] == met
        && var before := did[|met|].refs;
        match ApplyBatch(before, batch)
        case Ok(_) => landed == [Landing(before, batch)] && r == Ok(Publications(staged, t.steps))
        case Err(race) => landed == [] && r == Err(Lost(race))
  }

  /** Every operation stages over `refs`. */
  ghost predicate Stageable(refs: Refs, staged: seq<Staged>, message: Text)
    requires AllValid(staged)
  {
    forall s <- staged :: s.Valid() && Stages(s, message, Read(refs, s.Target()))
  }

  /** What a transaction with nobody in between leaves of kind `k`. */
  ghost predicate Done(refs: Refs, after: Refs, staged: seq<Staged>, steps: seq<Step>, k: Text)
    requires |steps| <= |staged|
  {
    && Source(after, k) == Upserted(Source(refs, k), Deltas(staged, steps, k))
    && (if Deltas(staged, steps, k) != [] then Agrees(after, k)
        else Read(after, IndexRef(k)) == Read(refs, IndexRef(k)))
  }

  /** From `refs` to `after` with nobody in between: it went through exactly when every operation stages,
      and then, no ref named twice, every kind is where its deltas bring it. */
  ghost predicate Quiet(refs: Refs, after: Refs, staged: seq<Staged>, message: Text, t: Trace, through: bool)
    requires AllValid(staged)
  {
    && (through <==> Stageable(refs, staged, message))
    && (through && DistinctTargets(staged) ==>
          |t.steps| == |staged| && forall k: Text :: ValidSegment(k) ==> Done(refs, after, staged, t.steps, k))
  }

  /** Staging and indexing: the plan and the whole batch, or the refusal. */
  method Prepare(store: SharedStore, staged: seq<Staged>, message: Text)
    returns (r: Result<(seq<Object>, seq<RefEdit>), Failure>, ghost t: Trace, ghost did: seq<Access>)
    requires AllValid(staged)
    modifies store, store.memory
    ensures store.seen == old(store.seen) + did && store.landed == old(store.landed)
    ensures Served(old(store.Now()), old(store.moves), did, store.moves)
    ensures store.Now() == Last(old(store.Now()), did)
    ensures if r.Err? then Refused(staged, message, did, r.error) && !r.error.Lost?
            else
              && Prepared(staged, message, t) && did == t.staging + t.indexing
              && r.value == (Publications(staged, t.steps), WholeBatch(staged, t))
  {
    var planned, steps, first := StageAll(store, staged, message);
    t := Trace(steps, [], first, []);
    did := first;
    if planned.Err? { return Err(planned.error), t, did; }
    ghost var left := store.moves;
    var edits, kinds, second := IndexAll(store, planned.value, staged, steps);
    ServedAppend(old(store.Now()), old(store.moves), first, left, second, store.moves);
    Assoc(old(store.seen), first, second);
    t := Trace(steps, kinds, first, second);
    did := first + second;
    return Ok((planned.value.publications, edits)), t, did;
  }

  // ---- what the edits do, wherever they land ----

  lemma {:induction false} EditsFor(steps: seq<Step>, e: RefEdit) returns (i: nat)
    requires e in EntityEdits(steps)
    ensures i < |steps| && steps[i].edit == Some(e)
  {
    var n := |steps| - 1;
    if e in EntityEdits(steps[..n]) { i := EditsFor(steps[..n], e); } else { i := n; }
  }

  lemma {:induction false} InEdits(steps: seq<Step>, i: nat)
    requires i < |steps| && steps[i].edit.Some?
    ensures steps[i].edit.value in EntityEdits(steps)
  {
    if i < |steps| - 1 { InEdits(steps[..|steps| - 1], i); }
  }

  lemma IndexEditNamed(staged: seq<Staged>, steps: seq<Step>, kind: Text, b: Access, c: Access)
    requires |steps| <= |staged| && IndexEditOf(staged, steps, kind, b, c).Some?
    ensures IndexEditOf(staged, steps, kind, b, c).value.name == IndexRef(kind)
  {
    EditShape(kind, Read(c.refs, IndexRef(kind)), Upserted(Source(b.refs, kind), Deltas(staged, steps, kind)));
  }

  lemma {:induction false} IndexEditsNamed(staged: seq<Staged>, steps: seq<Step>, kinds: seq<Text>, did: seq<Access>,
                                           e: RefEdit) returns (i: nat)
    requires |steps| <= |staged| && |did| == 2 * |kinds| && e in IndexEdits(staged, steps, kinds, did)
    ensures i < |kinds| && IndexEditOf(staged, steps, kinds[i], did[2 * i], did[2 * i + 1]) == Some(e)
    ensures e.name == IndexRef(kinds[i])
  {
    hide IndexEditOf;
    var n := |kinds| - 1;
    if e in IndexEdits(staged, steps, kinds[..n], did[..2 * n]) {
      i := IndexEditsNamed(staged, steps, kinds[..n], did[..2 * n], e);
    } else {
      i := n;
      assert IndexEditOf(staged, steps, kinds[n], did[2 * n], did[2 * n + 1]) == Some(e);
      IndexEditNamed(staged, steps, kinds[n], did[2 * n], did[2 * n + 1]);
    }
  }

  lemma RisingDistinct(kinds: seq<Text>)
    requires Rising(kinds)
    ensures forall i, j :: 0 <= i < j < |kinds| ==> kinds[i] != kinds[j]
  {
    TextTotal();
  }

  lemma PublishOpt(refs: Refs, edits: seq<RefEdit>, e: Option<RefEdit>)
    ensures Publish(refs, edits + Opt(e)) ==
            if e.Some? then Write(Publish(refs, edits), e.value) else Publish(refs, edits)
  {
    if e.Some? { PublishSnoc(refs, edits, e.value); } else { assert edits + Opt(e) == edits; }
  }

  /** Where the index of `kind` stands after its edit: at what its own two accesses made. */
  ghost function IndexLeft(before: Refs, staged: seq<Staged>, steps: seq<Step>, kind: Text, b: Access, c: Access):
    Option<Object>
    requires |steps| <= |staged|
  {
    if IndexEditOf(staged, steps, kind, b, c).Some?
    then Index.IndexValue(Upserted(Source(b.refs, kind), Deltas(staged, steps, kind)))
    else Read(before, IndexRef(kind))
  }

  /** One index edit published over `before`: it sets its own index and nothing else. */
  lemma IndexSet(before: Refs, staged: seq<Staged>, steps: seq<Step>, kind: Text, b: Access, c: Access, k: Text)
    requires |steps| <= |staged|
    ensures var edit := IndexEditOf(staged, steps, kind, b, c);
      var after := if edit.Some? then Write(before, edit.value) else before;
      && Source(after, k) == Source(before, k)
      && Read(after, IndexRef(k)) ==
         if k == kind then IndexLeft(before, staged, steps, kind, b, c) else Read(before, IndexRef(k))
  {
    var m := Upserted(Source(b.refs, kind), Deltas(staged, steps, kind));
    EditShape(kind, Read(c.refs, IndexRef(kind)), m);
    var edit := IndexEditOf(staged, steps, kind, b, c);
    if edit.Some? { IndexWrite(before, kind, edit.value, k); }
  }

  /** The index edits move no entity, leave the index of every other kind alone, and set each their own. */
  ghost predicate IndexesLeft(before: Refs, staged: seq<Staged>, steps: seq<Step>, kinds: seq<Text>,
                              did: seq<Access>, k: Text)
    requires |steps| <= |staged| && |did| == 2 * |kinds|
  {
    var after := Publish(before, IndexEdits(staged, steps, kinds, did));
    && Source(after, k) == Source(before, k)
    && (k !in kinds ==> Read(after, IndexRef(k)) == Read(before, IndexRef(k)))
    && forall i :: 0 <= i < |kinds| && kinds[i] == k ==>
         Read(after, IndexRef(k)) == IndexLeft(before, staged, steps, k, did[2 * i], did[2 * i + 1])
  }

  lemma IndexesLeaveOn(before: Refs, staged: seq<Staged>, steps: seq<Step>, kinds: seq<Text>, did: seq<Access>,
                       kind: Text, b: Access, c: Access, k: Text)
    requires |steps| <= |staged| && |did| == 2 * |kinds| && kind !in kinds
    requires IndexesLeft(before, staged, steps, kinds, did, k)
    ensures IndexesLeft(before, staged, steps, kinds + [kind], did + [b, c], k)
  {
    hide IndexEdits, IndexEditOf;
    var edits := IndexEdits(staged, steps, kinds, did);
    IndexEditsOn(staged, steps, kinds, did, kind, b, c);
    PublishOpt(before, edits, IndexEditOf(staged, steps, kind, b, c));
    IndexSet(Publish(before, edits), staged, steps, kind, b, c, k);
    forall i | 0 <= i <= |kinds| && (kinds + [kind])[i] == k
      ensures i < |kinds| ==> k != kind
      ensures i < |kinds| ==> (did + [b, c])[2 * i] == did[2 * i] && (did + [b, c])[2 * i + 1] == did[2 * i + 1]
      ensures i == |kinds| ==> k !in kinds && (did + [b, c])[2 * i] == b && (did + [b, c])[2 * i + 1] == c
    {
      if i < |kinds| { assert kinds[i] in kinds; }
    }
  }

  lemma {:induction false} IndexesLeave(before: Refs, staged: seq<Staged>, steps: seq<Step>, kinds: seq<Text>,
                                        did: seq<Access>, k: Text)
    requires |steps| <= |staged| && |did| == 2 * |kinds| && Rising(kinds)
    ensures IndexesLeft(before, staged, steps, kinds, did, k)
    decreases |kinds|
  {
    hide IndexEditOf, IndexLeft;
    if kinds == [] {
      assert IndexEdits(staged, steps, kinds, did) == [];
    } else {
      hide IndexesLeft, IndexEdits;
      var n := |kinds| - 1;
      var front, kind, did0, b, c := kinds[..n], kinds[n], did[..2 * n], did[2 * n], did[2 * n + 1];
      assert kinds == front + [kind];
      assert did == did0 + [b, c];
      assert kind !in front by { RisingDistinct(kinds); }
      IndexesLeave(before, staged, steps, front, did0, k);
      IndexesLeaveOn(before, staged, steps, front, did0, kind, b, c, k);
    }
  }

  // ---- with nobody in between ----

  /** One operation staged against `refs`: what its edit does to every kind's entities. */
  lemma StepEffect(refs: Refs, before: Refs, s: Staged, message: Text, stamp: int, k: Text)
    requires s.Valid() && Stage(s, message, Read(refs, s.Target()), stamp).Ok?
    requires Read(before, s.Target()) == Read(refs, s.Target())
    ensures var step := Stage(s, message, Read(refs, s.Target()), stamp).value;
      var after := if step.edit.Some? then Write(before, step.edit.value) else before;
      && (step.edit.Some? ==> Holds(refs, step.edit.value))
      && Source(after, s.kind) ==
         (if step.commit.Some? then Source(before, s.kind)[s.name := step.commit.value] else Source(before, s.kind))
      && (ValidSegment(k) && k != s.kind ==> Source(after, k) == Source(before, k))
      && Read(after, IndexRef(k)) == Read(before, IndexRef(k))
  {
    var step := Stage(s, message, Read(refs, s.Target()), stamp).value;
    StagedFor(s, message, Read(refs, s.Target()), stamp);
    var op := DeleteName(s.kind, s.name);
    if step.edit.Some? {
      EntityWrite(before, op, step.commit.value, step.edit.value, k);
    } else if step.commit.Some? {
      SourceMember(before, s.kind, s.name);
    }
  }

  /** Publishing the entity edits staged against `refs` makes exactly the deltas of kind `k`. */
  ghost predicate BuiltFor(refs: Refs, staged: seq<Staged>, steps: seq<Step>, k: Text)
    requires |steps| <= |staged|
  {
    var after := Publish(refs, EntityEdits(steps));
    && (ValidSegment(k) ==> Source(after, k) == Upserted(Source(refs, k), Deltas(staged, steps, k)))
    && Read(after, IndexRef(k)) == Read(refs, IndexRef(k))
  }

  lemma UpsertedSnoc(m: map<Path, Object>, deltas: Index.Listed, x: (Path, Object))
    ensures Upserted(m, deltas + [x]) == Upserted(m, deltas)[x.0 := x.1]
  {
    assert (deltas + [x])[..|deltas + [x]| - 1] == deltas;
  }

  /** The step is staged against `refs`, at a ref no earlier step has touched. */
  ghost predicate FreshStep(refs: Refs, staged: seq<Staged>, steps: seq<Step>, step: Step, message: Text, stamp: int)
    requires AllValid(staged) && |steps| < |staged|
  {
    && staged[|steps|].Valid()
    && Stage(staged[|steps|], message, Read(refs, staged[|steps|].Target()), stamp) == Ok(step)
    && forall e <- EntityEdits(steps) :: e.name != staged[|steps|].Target()
  }

  lemma EntityBuilt(refs: Refs, staged: seq<Staged>, steps: seq<Step>, step: Step, message: Text, stamp: int, k: Text)
    requires AllValid(staged) && |steps| < |staged| && BuiltFor(refs, staged, steps, k)
    requires FreshStep(refs, staged, steps, step, message, stamp)
    ensures BuiltFor(refs, staged, steps + [step], k)
  {
    var s := staged[|steps|];
    var before := Publish(refs, EntityEdits(steps));
    PublishFrame(refs, EntityEdits(steps), s.Target());
    StepsSnoc(staged, steps, step, k);
    PublishOpt(refs, EntityEdits(steps), step.edit);
    StepEffect(refs, before, s, message, stamp, k);
    if k == s.kind && step.commit.Some? {
      UpsertedSnoc(Source(refs, k), Deltas(staged, steps, k), (s.name, step.commit.value));
    } else {
      assert Deltas(staged, steps, k) + [] == Deltas(staged, steps, k);
    }
  }

  lemma NextIsFresh(refs: Refs, staged: seq<Staged>, message: Text, did: seq<Access>, steps: seq<Step>)
    requires AllValid(staged) && DistinctTargets(staged) && 0 < |steps| <= |staged| && |steps| <= |did|
    requires AllMet(refs, did) && StagedAgainst(staged, message, did, steps)
    ensures var n := |steps| - 1;
      FreshStep(refs, staged, steps[..n], steps[n], message, did[n].stamp)
  {
    var n := |steps| - 1;
    StagedIs(staged, message, did, steps, n);
    assert did[n].refs == refs;
    forall e <- EntityEdits(steps[..n]) ensures e.name != staged[n].Target() {
      var i := EditsFor(steps[..n], e);
      StagedIs(staged, message, did, steps, i);
      StagedFor(staged[i], message, Read(did[i].refs, staged[i].Target()), did[i].stamp);
      assert staged[i].Target() != staged[n].Target();
    }
  }

  lemma NothingBuilt(refs: Refs, staged: seq<Staged>, k: Text)
    ensures BuiltFor(refs, staged, [], k)
  {
  }

  lemma {:induction false} EntitiesBuilt(refs: Refs, staged: seq<Staged>, message: Text, did: seq<Access>,
                                         steps: seq<Step>, k: Text)
    requires AllValid(staged) && DistinctTargets(staged) && |steps| <= |staged| && |steps| <= |did|
    requires AllMet(refs, did) && StagedAgainst(staged, message, did, steps)
    ensures BuiltFor(refs, staged, steps, k)
  {
    hide StepAt, Stage, BuiltFor, FreshStep;
    if steps == [] {
      NothingBuilt(refs, staged, k);
    } else {
      var n := |steps| - 1;
      NextIsFresh(refs, staged, message, did, steps);
      assert StagedAgainst(staged, message, did, steps[..n]);
      EntitiesBuilt(refs, staged, message, did, steps[..n], k);
      EntityBuilt(refs, staged, steps[..n], steps[n], message, did[n].stamp, k);
      assert steps == steps[..n] + [steps[n]];
    }
  }

  /** A batch read from `refs` holds of `refs`. */
  lemma QuietHolds(refs: Refs, staged: seq<Staged>, message: Text, t: Trace)
    requires AllValid(staged) && Prepared(staged, message, t)
    requires AllMet(refs, t.staging) && AllMet(refs, t.indexing)
    ensures ApplyBatch(refs, WholeBatch(staged, t)) == Ok(Publish(refs, WholeBatch(staged, t)))
  {
    hide StepAt;
    forall e <- WholeBatch(staged, t) ensures Holds(refs, e) {
      if e in EntityEdits(t.steps) {
        var i := EditsFor(t.steps, e);
        StagedIs(staged, message, t.staging, t.steps, i);
        StagedFor(staged[i], message, Read(refs, staged[i].Target()), t.staging[i].stamp);
      } else {
        var i := IndexEditsNamed(staged, t.steps, t.kinds, t.indexing, e);
        EditShape(t.kinds[i], Read(refs, IndexRef(t.kinds[i])),
                  Upserted(Source(refs, t.kinds[i]), Deltas(staged, t.steps, t.kinds[i])));
      }
    }
    NoFailure(refs, WholeBatch(staged, t));
  }

  lemma QuietDone(refs: Refs, staged: seq<Staged>, message: Text, t: Trace, k: Text)
    requires AllValid(staged) && Prepared(staged, message, t) && DistinctTargets(staged) && ValidSegment(k)
    requires AllMet(refs, t.staging) && AllMet(refs, t.indexing)
    ensures Done(refs, Publish(refs, WholeBatch(staged, t)), staged, t.steps, k)
  {
    var mid := Publish(refs, EntityEdits(t.steps));
    EntitiesBuilt(refs, staged, message, t.staging, t.steps, k);
    PublishAppend(refs, EntityEdits(t.steps), IndexEdits(staged, t.steps, t.kinds, t.indexing));
    IndexesLeave(mid, staged, t.steps, t.kinds, t.indexing, k);
    if k in t.kinds {
      var i :| 0 <= i < |t.kinds| && t.kinds[i] == k;
      EditShape(k, Read(refs, IndexRef(k)), Upserted(Source(refs, k), Deltas(staged, t.steps, k)));
      assert t.indexing[2 * i].refs == refs && t.indexing[2 * i + 1].refs == refs;
    }
  }

  /** With nobody in between the whole batch holds of the refs it was read from, so every operation that
      stages gets through; and with no ref named twice it publishes to exactly the deltas of every kind. */
  lemma QuietCommit(refs: Refs, staged: seq<Staged>, message: Text, t: Trace)
    requires AllValid(staged) && Prepared(staged, message, t)
    requires AllMet(refs, t.staging) && AllMet(refs, t.indexing)
    ensures Stageable(refs, staged, message)
    ensures ApplyBatch(refs, WholeBatch(staged, t)) == Ok(Publish(refs, WholeBatch(staged, t)))
    ensures DistinctTargets(staged) ==>
      forall k: Text :: ValidSegment(k) ==> Done(refs, Publish(refs, WholeBatch(staged, t)), staged, t.steps, k)
  {
    QuietHolds(refs, staged, message, t);
    forall s <- staged ensures s.Valid() && Stages(s, message, Read(refs, s.Target())) {
      var i :| 0 <= i < |staged| && staged[i] == s;
      assert StepAt(staged, message, t.staging, i, t.steps[i]);
    }
    if DistinctTargets(staged) {
      forall k: Text | ValidSegment(k)
        ensures Done(refs, Publish(refs, WholeBatch(staged, t)), staged, t.steps, k)
      {
        QuietDone(refs, staged, message, t, k);
      }
    }
  }

  lemma QuietTrace(refs: Refs, staged: seq<Staged>, message: Text, t: Trace, did: seq<Access>)
    requires AllValid(staged) && Prepared(staged, message, t) && did == t.staging + t.indexing && AllMet(refs, did)
    ensures ApplyBatch(refs, WholeBatch(staged, t)) == Ok(Publish(refs, WholeBatch(staged, t)))
    ensures Quiet(refs, Publish(refs, WholeBatch(staged, t)), staged, message, t, true)
  {
    forall i | 0 <= i < |t.staging| ensures t.staging[i].refs == refs { assert did[i] == t.staging[i]; }
    forall i | 0 <= i < |t.indexing| ensures t.indexing[i].refs == refs {
      assert did[|t.staging| + i] == t.indexing[i];
    }
    QuietCommit(refs, staged, message, t);
  }

  lemma RefusedQuietly(refs: Refs, staged: seq<Staged>, message: Text, did: seq<Access>, f: Failure)
    requires AllValid(staged) && AllMet(refs, did) && Refused(staged, message, did, f)
    ensures !Stageable(refs, staged, message)
  {
    var n := |did| - 1;
    assert did[n].refs == refs && staged[n] in staged;
  }

  // ---- committing ----

  lemma ConcludeRefused(start: Access, queued: seq<Move>, staged: seq<Staged>, message: Text, t: Trace,
                        did: seq<Access>, left: seq<Move>, f: Failure)
    requires AllValid(staged) && Served(start, queued, did, left) && Refused(staged, message, did, f) && !f.Lost?
    ensures Concluded(staged, message, t, did, Err(f), [])
    ensures Last(start, did) == OnlyOthers(start, queued, |did|)
    ensures queued == [] ==> Last(start, did) == start && Quiet(start.refs, start.refs, staged, message, t, false)
  {
    ServedInTurn(start, queued, did, left);
    if queued == [] {
      ServedAlone(start, did, left);
      RefusedQuietly(start.refs, staged, message, did, f);
    }
  }

  lemma ConcludeIdle(start: Access, queued: seq<Move>, staged: seq<Staged>, message: Text, t: Trace,
                     did: seq<Access>, left: seq<Move>)
    requires AllValid(staged) && Served(start, queued, did, left) && Prepared(staged, message, t)
    requires did == t.staging + t.indexing && WholeBatch(staged, t) == []
    ensures Concluded(staged, message, t, did, Ok(Publications(staged, t.steps)), [])
    ensures Last(start, did) == OnlyOthers(start, queued, |did|)
    ensures queued == [] ==> Last(start, did) == start && Quiet(start.refs, start.refs, staged, message, t, true)
  {
    ServedInTurn(start, queued, did, left);
    if queued == [] {
      ServedAlone(start, did, left);
      QuietTrace(start.refs, staged, message, t, did);
    }
  }

  lemma AppliedConcluded(staged: seq<Staged>, message: Text, t: Trace, met: seq<Access>, last: Access)
    requires AllValid(staged) && Prepared(staged, message, t) && met == t.staging + t.indexing
    requires WholeBatch(staged, t) != []
    ensures var applied := ApplyBatch(last.refs, WholeBatch(staged, t));
      if applied.Ok? then Concluded(staged, message, t, met + [last], Ok(Publications(staged, t.steps)),
                                    [Landing(last.refs, WholeBatch(staged, t))])
      else Concluded(staged, message, t, met + [last], Err(Lost(applied.error)), [])
  {
    hide WholeBatch, ApplyBatch, Prepared;
    assert (met + [last])[..|met|] == met && (met + [last])[|met|] == last;
  }

  lemma ConcludeApplied(start: Access, queued: seq<Move>, staged: seq<Staged>, message: Text, t: Trace,
                        met: seq<Access>, left: seq<Move>, last: Access)
    requires AllValid(staged) && Served(start, queued, met, left) && Prepared(staged, message, t)
    requires met == t.staging + t.indexing && last == Meet(Last(start, met), left)
    ensures Served(start, queued, met + [last], Later(left)) && last == OnlyOthers(start, queued, |met + [last]|)
    ensures queued == [] ==>
      && ApplyBatch(last.refs, WholeBatch(staged, t)).Ok?
      && Quiet(start.refs, ApplyBatch(last.refs, WholeBatch(staged, t)).value, staged, message, t, true)
  {
    hide WholeBatch, ApplyBatch, Prepared, Quiet;
    ServedOn(start, queued, met, left, last);
    ServedInTurn(start, queued, met + [last], Later(left));
    if queued == [] {
      ServedAlone(start, met, left);
      QuietTrace(start.refs, staged, message, t, met);
    }
  }

  /** All or nothing: an error leaves every ref exactly as the others' last move left it and names what
      refused, and success is the one batch the reads make, landed whole. With nobody else writing it succeeds
      exactly when every operation stages, and with no ref named twice every touched kind's entities then move
      by exactly the deltas, its index agrees with them, and no other kind is touched. */
  method Commit(store: SharedStore, staged: seq<Staged>, message: Text)
    returns (r: Result<seq<Object>, Failure>, ghost t: Trace, ghost did: seq<Access>, ghost landed: seq<Landing>)
    requires AllValid(staged)
    modifies store, store.memory
    ensures store.seen == old(store.seen) + did && store.landed == old(store.landed) + landed
    ensures Served(old(store.Now()), old(store.moves), did, store.moves)
    ensures Concluded(staged, message, t, did, r, landed)
    ensures store.memory.refs == if landed == [] then OnlyOthers(old(store.Now()), old(store.moves), |did|).refs
                                 else Publish(landed[0].before, landed[0].edits)
    ensures r.Err? ==> landed == []
    ensures r.Err? && old(store.moves) == [] ==> store.memory.refs == old(store.memory.refs)
    ensures old(store.moves) == [] ==> Quiet(old(store.memory.refs), store.memory.refs, staged, message, t, r.Ok?)
  {
    hide Concluded, Prepared, Quiet, WholeBatch, Served, OnlyOthers, ApplyBatch;
    ghost var start, queued := store.Now(), store.moves;
    var prepared, trace, first := Prepare(store, staged, message);
    t, did, landed := trace, first, [];
    if prepared.Err? {
      ConcludeRefused(start, queued, staged, message, t, did, store.moves, prepared.error);
      return Err(prepared.error), t, did, landed;
    }
    var (publications, edits) := prepared.value;
    if edits == [] {
      ConcludeIdle(start, queued, staged, message, t, did, store.moves);
      return Ok(publications), t, did, landed;
    }
    ghost var last, left := Meet(store.Now(), store.moves), store.moves;
    var applied := store.Apply(edits);
    Assoc(old(store.seen), first, [last]);
    AppliedConcluded(staged, message, t, first, last);
    ConcludeApplied(start, queued, staged, message, t, first, left, last);
    did := first + [last];
    if applied.Err? { return Err(Lost(applied.error)), t, did, landed; }
    assert ApplyBatch(last.refs, edits).value == Publish(last.refs, edits) by { AppliedIsPublished(last.refs, edits); }
    return Ok(publications), t, did, [Landing(last.refs, edits)];
  }

  lemma AppliedIsPublished(refs: Refs, edits: seq<RefEdit>)
    requires ApplyBatch(refs, edits).Ok?
    ensures ApplyBatch(refs, edits).value == Publish(refs, edits)
  {
  }

  // ---- under contention ----

  /** After a batch each ref holds what it held, or the target of some edit that names it. */
  lemma {:induction false} PublishedFrom(refs: Refs, edits: seq<RefEdit>, name: Text) returns (i: nat)
    ensures i < |edits| ==>
      && edits[i].name == name
      && Read(Publish(refs, edits), name) == if edits[i].Delete? then None else Some(edits[i].target)
    ensures i >= |edits| ==> Read(Publish(refs, edits), name) == Read(refs, name)
  {
    if edits == [] {
      i := 0;
    } else {
      var n := |edits| - 1;
      assert edits == edits[..n] + [edits[n]];
      PublishSnoc(refs, edits[..n], edits[n]);
      if edits[n].name == name {
        i := n;
      } else {
        i := PublishedFrom(refs, edits[..n], name);
        if i >= n { i := |edits|; }
      }
    }
  }

  /** An edit staged for a ref that has a value puts a commit there whose one parent is the value it
      expects. */
  lemma StagedParent(s: Staged, message: Text, current: Option<Object>, stamp: int)
    requires s.name != [] && Stage(s, message, current, stamp).Ok?
    ensures var e := Stage(s, message, current, stamp).value.edit;
      e.Some? && e.value.Update? ==> e.value.target.Commit? && e.value.target.parents == [e.value.expected]
  {
  }

  /** What a staged deletion puts at its ref, over the commit it demands there: a tombstone of the document it
      was given the id of. It names the document it displaces exactly when that commit holds it. */
  lemma ErasureNames(s: Staged, message: Text, current: Option<Object>, stamp: int)
    requires s.Valid() && s.Erase? && Stage(s, message, current, stamp).Ok?
    requires Stage(s, message, current, stamp).value.edit.Some?
    ensures var step := Stage(s, message, current, stamp).value;
      && s.demand.Exactly? && current == Some(s.demand.value) && step.edit.value.target == step.commit.value
      && ReadCommit(s.kind, step.commit.value) == EntityState.Deleted(Tombstone(s.kind, s.id))
      && step.commit.value.parents == [s.demand.value] && ReadCommit(s.kind, s.demand.value) == Present
      && (Buries(s.kind, step.commit.value, s.demand.value) <==> s.demand.value.tree == s.id)
  {
    DocumentReads(Tombstone(s.kind, s.id));
  }

  /** An edit of the batch on an entity ref belongs to an operation at that name. */
  lemma EntityEditFor(staged: seq<Staged>, message: Text, t: Trace, e: RefEdit, k: Text, p: Path) returns (j: nat)
    requires AllValid(staged) && Prepared(staged, message, t) && e in WholeBatch(staged, t)
    requires ValidSegment(k) && ValidPath(p) && e.name == EntityRef(k, p)
    ensures j < |staged| && staged[j].Valid() && t.steps[j].edit == Some(e)
    ensures Stage(staged[j], message, Read(t.staging[j].refs, staged[j].Target()), t.staging[j].stamp) == Ok(t.steps[j])
    ensures staged[j].kind == k && staged[j].name == p
  {
    if e !in EntityEdits(t.steps) {
      var i := IndexEditsNamed(staged, t.steps, t.kinds, t.indexing, e);
      IndexApart(t.kinds[i], k);
      RelativeOfJoin(Entities(k), p);
      assert false;
    }
    j := EditsFor(t.steps, e);
    StagedIs(staged, message, t.staging, t.steps, j);
    StagedFor(staged[j], message, Read(t.staging[j].refs, staged[j].Target()), t.staging[j].stamp);
    EntityRefInjective(staged[j].kind, staged[j].name, k, p);
  }

  lemma EditForward(before: Refs, staged: seq<Staged>, message: Text, t: Trace, k: Text, p: Path)
    requires AllValid(staged) && Prepared(staged, message, t) && ApplyBatch(before, WholeBatch(staged, t)).Ok?
    requires ValidSegment(k) && p in Source(before, k)
    ensures var after := Publish(before, WholeBatch(staged, t));
      p in Source(after, k) && Reaches(Source(after, k)[p], Source(before, k)[p])
  {
    var edits := WholeBatch(staged, t);
    SourceMember(before, k, p);
    SourceMember(Publish(before, edits), k, p);
    NoFailure(before, edits);
    var i := PublishedFrom(before, edits, EntityRef(k, p));
    if i < |edits| {
      var e := edits[i];
      assert Holds(before, e);
      var j := EntityEditFor(staged, message, t, e, k, p);
      var current := Read(t.staging[j].refs, staged[j].Target());
      StagedFor(staged[j], message, current, t.staging[j].stamp);
      StagedParent(staged[j], message, current, t.staging[j].stamp);
      ChildAbove(e.target);
    }
  }

  /** Whoever wrote in between, a landed transaction only moves names forward. */
  lemma MovesForward(before: Refs, staged: seq<Staged>, message: Text, t: Trace, k: Text)
    requires AllValid(staged) && Prepared(staged, message, t) && ApplyBatch(before, WholeBatch(staged, t)).Ok?
    requires ValidSegment(k)
    ensures Forward(Source(before, k), Source(Publish(before, WholeBatch(staged, t)), k))
  {
    forall p <- Source(before, k)
      ensures p in Source(Publish(before, WholeBatch(staged, t)), k)
      ensures Reaches(Source(Publish(before, WholeBatch(staged, t)), k)[p], Source(before, k)[p])
    {
      EditForward(before, staged, message, t, k, p);
    }
  }

  /** And every operation that moved its ref found there, at that instant, what it demanded. */
  lemma DemandsMet(before: Refs, staged: seq<Staged>, message: Text, t: Trace, i: nat)
    requires AllValid(staged) && Prepared(staged, message, t) && ApplyBatch(before, WholeBatch(staged, t)).Ok?
    requires i < |staged| && t.steps[i].edit.Some? && staged[i].Valid()
    ensures Matches(staged[i].demand, Read(before, staged[i].Target()))
  {
    NoFailure(before, WholeBatch(staged, t));
    InEdits(t.steps, i);
    assert t.steps[i].edit.value in WholeBatch(staged, t);
    StagedIs(staged, message, t.staging, t.steps, i);
    StagedFor(staged[i], message, Read(t.staging[i].refs, staged[i].Target()), t.staging[i].stamp);
  }

  /** A deletion of a landed transaction that moves its ref displaced the live commit it demanded; its
      tombstone names that commit's document, as a lone deletion's does, if and only if the demanded commit
      holds the document of the id it was given. */
  lemma ErasedDisplaced(before: Refs, staged: seq<Staged>, message: Text, t: Trace, i: nat)
    requires AllValid(staged) && Prepared(staged, message, t) && ApplyBatch(before, WholeBatch(staged, t)).Ok?
    requires i < |staged| && staged[i].Erase? && t.steps[i].edit.Some? && staged[i].Valid()
    ensures var s, step := staged[i], t.steps[i];
      && s.demand.Exactly? && step.commit.Some?
      && Read(before, s.Target()) == Some(s.demand.value) && ReadCommit(s.kind, s.demand.value) == Present
      && ReadCommit(s.kind, step.commit.value) == EntityState.Deleted(Tombstone(s.kind, s.id))
      && (Buries(s.kind, step.commit.value, s.demand.value) <==> s.demand.value.tree == s.id)
  {
    var s, a := staged[i], t.staging[i];
    StagedIs(staged, message, t.staging, t.steps, i);
    ErasureNames(s, message, Read(a.refs, s.Target()), a.stamp);
    StagedFor(s, message, Read(a.refs, s.Target()), a.stamp);
    DemandsMet(before, staged, message, t, i);
  }
}
