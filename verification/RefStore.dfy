/** The compare-and-swap batch and its in-memory store (`gix-refstore/src/edit.rs`, `memory.rs`). */
module RefStore {
  import opened Wrappers
  import opened Order
  import opened Objects
  import Names

  type Refs = map<Text, Object>

  datatype Expectation = Absent | Exactly(value: Object)

  datatype RefEdit =
    | Create(name: Text, target: Object)
    | Update(name: Text, expected: Object, target: Object)
    | Delete(name: Text, expected: Object)
  {
    function Expects(): Expectation { if Create? then Absent else Exactly(expected) }
  }

  datatype LostRace = LostRace(name: Text, expected: Expectation)

  function Read(refs: Refs, name: Text): Option<Object> {
    if name in refs then Some(refs[name]) else None
  }

  predicate Matches(e: Expectation, current: Option<Object>) {
    match e
    case Absent => current == None
    case Exactly(o) => current == Some(o)
  }

  predicate Holds(refs: Refs, e: RefEdit) { Matches(e.Expects(), Read(refs, e.name)) }

  /** The first edit, in order, whose expectation `refs` does not meet. */
  function FirstFailure(refs: Refs, edits: seq<RefEdit>): Option<RefEdit> {
    if edits == [] then None
    else if !Holds(refs, edits[0]) then Some(edits[0])
    else FirstFailure(refs, edits[1..])
  }

  function Write(refs: Refs, e: RefEdit): Refs {
    if e.Delete? then refs - {e.name} else refs[e.name := e.target]
  }

  function Publish(refs: Refs, edits: seq<RefEdit>): Refs
    decreases |edits|
  {
    if edits == [] then refs else Publish(Write(refs, edits[0]), edits[1..])
  }

  function ApplyBatch(refs: Refs, edits: seq<RefEdit>): Result<Refs, LostRace> {
    match FirstFailure(refs, edits)
    case Some(e) => Err(LostRace(e.name, e.Expects()))
    case None => Ok(Publish(refs, edits))
  }

  lemma {:induction false} NoFailure(refs: Refs, edits: seq<RefEdit>)
    ensures FirstFailure(refs, edits) == None <==> forall i :: 0 <= i < |edits| ==> Holds(refs, edits[i])
  {
    if edits != [] {
      NoFailure(refs, edits[1..]);
      if FirstFailure(refs, edits) == None {
        forall i | 0 <= i < |edits| ensures Holds(refs, edits[i]) {
          if i > 0 { assert edits[i] == edits[1..][i - 1]; }
        }
      }
    }
  }

  /** The failure reported is the first: everything before it held. */
  lemma {:induction false} FailureIsFirst(refs: Refs, edits: seq<RefEdit>, j: nat)
    requires j < |edits| && !Holds(refs, edits[j])
    requires forall i :: 0 <= i < j ==> Holds(refs, edits[i])
    ensures FirstFailure(refs, edits) == Some(edits[j])
  {
    if j > 0 {
      assert forall i :: 0 <= i < j - 1 ==> Holds(refs, edits[1..][i]) by {
        forall i | 0 <= i < j - 1 ensures Holds(refs, edits[1..][i]) { assert edits[1..][i] == edits[i + 1]; }
      }
      FailureIsFirst(refs, edits[1..], j - 1);
    }
  }

  lemma {:induction false} PublishSnoc(refs: Refs, edits: seq<RefEdit>, e: RefEdit)
    ensures Publish(refs, edits + [e]) == Write(Publish(refs, edits), e)
    decreases |edits|
  {
    if edits == [] {
      assert (edits + [e])[1..] == [];
    } else {
      assert (edits + [e])[1..] == edits[1..] + [e];
      PublishSnoc(Write(refs, edits[0]), edits[1..], e);
    }
  }

  lemma {:induction false} PublishAppend(refs: Refs, a: seq<RefEdit>, b: seq<RefEdit>)
    ensures Publish(refs, a + b) == Publish(Publish(refs, a), b)
    decreases |a|
  {
    if a == [] {
      assert a + b == b;
    } else {
      assert (a + b)[1..] == a[1..] + b;
      PublishAppend(Write(refs, a[0]), a[1..], b);
    }
  }

  /** A ref no edit names keeps its value. */
  lemma {:induction false} PublishFrame(refs: Refs, edits: seq<RefEdit>, name: Text)
    requires forall e <- edits :: e.name != name
    ensures Read(Publish(refs, edits), name) == Read(refs, name)
    decreases |edits|
  {
    if edits != [] {
      assert edits[0] in edits;
      PublishFrame(Write(refs, edits[0]), edits[1..], name);
    }
  }

  /** What each ref holds afterwards when no name repeats: the target of the edit that names it. */
  lemma {:induction false} PublishedValue(refs: Refs, edits: seq<RefEdit>, j: nat)
    requires j < |edits| && forall i, k :: 0 <= i < k < |edits| ==> edits[i].name != edits[k].name
    ensures Read(Publish(refs, edits), edits[j].name) == if edits[j].Delete? then None else Some(edits[j].target)
    decreases |edits|
  {
    if j == 0 {
      forall e <- edits[1..] ensures e.name != edits[0].name {
        var i :| 0 <= i < |edits[1..]| && edits[1..][i] == e;
        assert edits[i + 1] == e;
      }
      PublishFrame(Write(refs, edits[0]), edits[1..], edits[0].name);
    } else {
      forall i, k | 0 <= i < k < |edits[1..]| ensures edits[1..][i].name != edits[1..][k].name {
        assert edits[i + 1].name != edits[k + 1].name;
      }
      assert edits[1..][j - 1] == edits[j];
      PublishedValue(Write(refs, edits[0]), edits[1..], j - 1);
    }
  }

  // ---- batches of at most two edits ----

  function Opt(e: Option<RefEdit>): seq<RefEdit> { if e.Some? then [e.value] else [] }

  lemma ApplyOne(refs: Refs, e: RefEdit)
    ensures ApplyBatch(refs, [e]) ==
            if Holds(refs, e) then Ok(Write(refs, e)) else Err(LostRace(e.name, e.Expects()))
  {
    assert [e][1..] == [] && [e] != [];
    assert FirstFailure(refs, [e]) == if Holds(refs, e) then None else Some(e);
    assert Publish(refs, [e]) == Publish(Write(refs, e), [e][1..]);
  }

  lemma ApplyTwo(refs: Refs, e: RefEdit, f: RefEdit)
    ensures ApplyBatch(refs, [e, f]) ==
            if !Holds(refs, e) then Err(LostRace(e.name, e.Expects()))
            else if !Holds(refs, f) then Err(LostRace(f.name, f.Expects()))
            else Ok(Write(Write(refs, e), f))
  {
    assert [e, f][1..] == [f] && [f][1..] == [];
    ApplyOne(refs, f);
    assert FirstFailure(refs, [e, f]) == if Holds(refs, e) then FirstFailure(refs, [f]) else Some(e);
    assert FirstFailure(refs, [f]) == if Holds(refs, f) then FirstFailure(refs, []) else Some(f);
    assert Publish(refs, [e, f]) == Publish(Write(refs, e), [f]);
    assert Publish(Write(refs, e), [f]) == Publish(Write(Write(refs, e), f), []);
  }

  lemma ApplyBatchCases(refs: Refs, a: Option<RefEdit>, b: Option<RefEdit>)
    requires ApplyBatch(refs, Opt(a) + Opt(b)).Ok?
    ensures a.Some? ==> Holds(refs, a.value)
    ensures b.Some? ==> Holds(refs, b.value)
    ensures var mid := if a.Some? then Write(refs, a.value) else refs;
      ApplyBatch(refs, Opt(a) + Opt(b)).value == if b.Some? then Write(mid, b.value) else mid
  {
    match (a, b)
    case (Some(x), Some(y)) => assert Opt(a) + Opt(b) == [x, y]; ApplyTwo(refs, x, y);
    case (Some(x), None) => assert Opt(a) + Opt(b) == [x]; ApplyOne(refs, x);
    case (None, Some(y)) => assert Opt(a) + Opt(b) == [y]; ApplyOne(refs, y);
    case (None, None) => assert Opt(a) + Opt(b) == [];
  }

  /** The entries of `refs` under `prefix`. */
  function Under(refs: Refs, prefix: Text): Refs {
    map n | n in refs && Names.IsUnder(n, prefix) :: refs[n]
  }

  ghost function SortedUnder(refs: Refs, prefix: Text): seq<(Text, Object)> {
    TextTotal();
    Listing(TextLess, Under(refs, prefix))
  }

  /** A `BTreeMap` taken in iteration order. */
  method ListMap(m: Refs) returns (out: seq<(Text, Object)>)
    ensures Total(TextLess) && out == Listing(TextLess, m)
  {
    TextTotal();
    out := [];
    var todo := m.Keys;
    while todo != {}
      invariant todo <= m.Keys
      invariant Ascending(TextLess, out)
      invariant forall x :: x in out <==> x.0 in m && x.0 !in todo && m[x.0] == x.1
      invariant forall x, n :: x in out && n in todo ==> TextLess(x.0, n)
      decreases |todo|
    {
      ghost var least := LeastExists(TextLess, todo);
      var n :| n in todo && forall j <- todo :: j == n || TextLess(n, j);
      assert forall i :: 0 <= i < |out| ==> out[i] in out;
      out := out + [(n, m[n])];
      todo := todo - {n};
    }
    AscendingUnique(TextLess, out, Listing(TextLess, m));
  }

  class MemoryRefStore {
    var refs: Refs

    constructor ()
      ensures refs == map[]
    {
      refs := map[];
    }

    method ReadRef(name: Text) returns (r: Option<Object>)
      ensures r == Read(refs, name)
    {
      r := if name in refs then Some(refs[name]) else None;
    }

    /** The names under `prefix`, in iteration order. */
    method Prefixed(prefix: Text) returns (out: seq<(Text, Object)>)
      ensures out == SortedUnder(refs, prefix)
    {
      out := ListMap(Under(refs, prefix));
    }

    /** Check every edit, then write every edit. A refused batch changes nothing. */
    method Apply(edits: seq<RefEdit>) returns (r: Result<(), LostRace>)
      modifies this
      ensures match ApplyBatch(old(refs), edits)
              case Ok(after) => r == Ok(()) && refs == after
              case Err(e) => r == Err(e) && refs == old(refs)
    {
      for i := 0 to |edits|
        invariant forall j :: 0 <= j < i ==> Holds(refs, edits[j])
        invariant refs == old(refs)
      {
        var edit := edits[i];
        var current := if edit.name in refs then Some(refs[edit.name]) else None;
        var matched := match edit
          case Create(_, _) => current == None
          case Update(_, expected, _) => current == Some(expected)
          case Delete(_, expected) => current == Some(expected);
        if !matched {
          FailureIsFirst(refs, edits, i);
          return Err(LostRace(edit.name, edit.Expects()));
        }
      }
      NoFailure(refs, edits);
      for i := 0 to |edits|
        invariant refs == Publish(old(refs), edits[..i])
      {
        assert edits[..i + 1] == edits[..i] + [edits[i]];
        PublishSnoc(old(refs), edits[..i], edits[i]);
        match edits[i]
        case Create(name, target) => refs := refs[name := target];
        case Update(name, _, target) => refs := refs[name := target];
        case Delete(name, _) => refs := refs - {name};
      }
      assert edits[..|edits|] == edits;
      return Ok(());
    }
  }
}
