/** The locked batch as one process carries it out (`gix-refstore/src/repo.rs`); what interleaving with
    others does to it is `LockedBatch`. */
module GixRefStore {
  import opened Wrappers
  import opened Order
  import opened RefStore
  import opened LockedBatch

  ghost predicate NamedBy(names: seq<Text>, edits: seq<RefEdit>) {
    forall n :: n in names <==> exists e :: e in edits && e.name == n
  }

  /** The distinct names of a batch in ascending order: a `BTreeSet` of them, iterated. */
  method SortedNames(edits: seq<RefEdit>) returns (names: seq<Text>)
    ensures LockOrder(names, edits) && NamedBy(names, edits)
  {
    var todo := set e | e in edits :: e.name;
    names := [];
    TextTotal();
    while todo != {}
      invariant forall i, j :: 0 <= i < j < |names| ==> TextLess(names[i], names[j])
      invariant forall n :: n in names || n in todo <==> exists e :: e in edits && e.name == n
      invariant forall n, m :: n in names && m in todo ==> TextLess(n, m)
      decreases |todo|
    {
      ghost var least := LeastExists(TextLess, todo);
      var n :| n in todo && forall m <- todo :: m == n || TextLess(n, m);
      assert forall i :: 0 <= i < |names| ==> names[i] in names;
      names := names + [n];
      todo := todo - {n};
    }
  }

  /** The lock files of the first `n` names. */
  function Files(names: seq<Text>, n: nat): set<Text>
    requires n <= |names|
  {
    set i | 0 <= i < n :: EncodeRef(names[i])
  }

  lemma FilesOf(names: seq<Text>, edits: seq<RefEdit>, locks: set<Text>)
    requires NamedBy(names, edits)
    ensures (forall i :: 0 <= i < |names| ==> EncodeRef(names[i]) !in locks) <==>
            !exists e :: e in edits && EncodeRef(e.name) in locks
    ensures (forall i :: 0 <= i < |names| ==> EncodeRef(names[i]) !in locks) ==>
            locks + Files(names, |names|) - Files(names, |names|) == locks
  {
    forall i | 0 <= i < |names| ensures exists e :: e in edits && e.name == names[i] { assert names[i] in names; }
    forall e | e in edits ensures exists i :: 0 <= i < |names| && names[i] == e.name { assert e.name in names; }
  }

  class GixRefStore {
    var refs: Refs
    /** The lock files that exist, whoever made them. */
    var locks: set<Text>

    constructor (refs: Refs)
      ensures this.refs == refs && locks == {}
    {
      this.refs := refs;
      this.locks := {};
    }

    /** Give back the lock files of the first `n` names. */
    method Release(names: seq<Text>, n: nat)
      requires n <= |names|
      modifies this`locks
      ensures locks == old(locks) - Files(names, n)
    {
      for i := 0 to n
        invariant locks == old(locks) - Files(names, i)
      {
        locks := locks - {EncodeRef(names[i])};
      }
    }

    /** One lock file per name, in order; all or, when one is taken, none. */
    method Acquire(names: seq<Text>) returns (acquired: bool)
      requires forall i, j :: 0 <= i < j < |names| ==> names[i] != names[j]
      modifies this`locks
      ensures acquired <==> forall i :: 0 <= i < |names| ==> EncodeRef(names[i]) !in old(locks)
      ensures acquired ==> locks == old(locks) + Files(names, |names|)
      ensures !acquired ==> locks == old(locks)
    {
      for i := 0 to |names|
        invariant forall j :: 0 <= j < i ==> EncodeRef(names[j]) !in old(locks)
        invariant locks == old(locks) + Files(names, i)
      {
        if EncodeRef(names[i]) in locks {
          forall j | 0 <= j < i ensures EncodeRef(names[j]) != EncodeRef(names[i]) {
            EncodeRefInjective(names[i]);
            EncodeRefInjective(names[j]);
          }
          Release(names, i);
          return false;
        }
        locks := locks + {EncodeRef(names[i])};
      }
      return true;
    }

    /** Every expectation against the refs, in order: the first that fails. */
    method FirstUnmet(edits: seq<RefEdit>) returns (unmet: Option<RefEdit>)
      ensures unmet == FirstFailure(refs, edits)
    {
      for i := 0 to |edits|
        invariant forall j :: 0 <= j < i ==> Holds(refs, edits[j])
      {
        var current := if edits[i].name in refs then Some(refs[edits[i].name]) else None;
        var matched := match edits[i]
          case Create(_, _) => current == None
          case Update(_, expected, _) => current == Some(expected)
          case Delete(_, expected) => current == Some(expected);
        if !matched {
          FailureIsFirst(refs, edits, i);
          return Some(edits[i]);
        }
      }
      NoFailure(refs, edits);
      return None;
    }

    /** With none of its lock files taken, the locked batch is the atomic one; otherwise it gives up with
        the refs untouched. Either way it leaves no lock file behind. */
    method Apply(edits: seq<RefEdit>) returns (r: Result<(), Failure>)
      modifies this
      ensures locks == old(locks)
      ensures if exists e :: e in edits && EncodeRef(e.name) in old(locks) then r == Err(Backend) && refs == old(refs)
              else match ApplyBatch(old(refs), edits)
                case Ok(after) => r == Ok(()) && refs == after
                case Err(race) => r == Err(Lost(race)) && refs == old(refs)
    {
      if edits == [] { return Ok(()); }
      TextTotal();
      var names := SortedNames(edits);
      var acquired := Acquire(names);
      FilesOf(names, edits, old(locks));
      if !acquired { return Err(Backend); }
      var unmet := FirstUnmet(edits);
      if unmet.Some? {
        Release(names, |names|);
        return Err(Lost(LostRace(unmet.value.name, unmet.value.Expects())));
      }
      refs := Publish(refs, edits);
      Release(names, |names|);
      return Ok(());
    }
  }
}
