/** Git objects as inductive values. An object stands for its own id, so ids are injective and the
    object graph is acyclic by construction. */
module Objects {
  import opened Order

  datatype Mode = BlobMode | ExecutableMode | SymlinkMode | TreeMode | CommitMode

  datatype Entry = Entry(mode: Mode, filename: Text, oid: Object)

  /** `IdText(o)` is the blob whose content is the hex id of `o`. `stamp` gathers what a commit
      takes from its surroundings: identities, times and the signature header. */
  datatype Object =
    | Blob(data: Text)
    | IdText(of: Object)
    | Tree(entries: seq<Entry>)
    | Commit(tree: Object, parents: seq<Object>, message: Text, stamp: int)

  /** The first-parent walk from `o`, tip first. */
  function FirstParents(o: Object): (r: seq<Object>)
    ensures |r| >= 1 && r[0] == o
  {
    if o.Commit? && o.parents != [] then [o] + FirstParents(o.parents[0]) else [o]
  }

  /** `past` is `tip` or one of its first-parent ancestors. */
  predicate Reaches(tip: Object, past: Object) { past in FirstParents(tip) }

  function Depth(o: Object): nat { |FirstParents(o)| }

  lemma {:induction false} ReachedIsSuffix(tip: Object, past: Object)
    requires Reaches(tip, past)
    ensures Depth(past) <= Depth(tip)
    ensures FirstParents(past) == FirstParents(tip)[Depth(tip) - Depth(past)..]
  {
    if tip != past {
      var w := FirstParents(tip.parents[0]);
      assert FirstParents(tip)[1..] == w;
      assert FirstParents(tip) == [tip] + w;
      ReachedIsSuffix(tip.parents[0], past);
      assert FirstParents(tip)[Depth(tip) - Depth(past)..] == w[|w| - Depth(past)..];
    }
  }

  lemma ReachesTransitive(a: Object, b: Object, c: Object)
    requires Reaches(a, b) && Reaches(b, c)
    ensures Reaches(a, c)
  {
    ReachedIsSuffix(a, b);
    var i :| 0 <= i < Depth(b) && FirstParents(b)[i] == c;
    assert FirstParents(a)[Depth(a) - Depth(b) + i] == c;
  }

  lemma ReachesAntisymmetric(a: Object, b: Object)
    requires Reaches(a, b) && Reaches(b, a)
    ensures a == b
  {
    ReachedIsSuffix(a, b);
    ReachedIsSuffix(b, a);
    assert FirstParents(a)[0] == a && FirstParents(b)[0] == b;
  }

  /** A commit is strictly above its first parent, so the parent never reaches it. */
  lemma ChildAbove(c: Object)
    requires c.Commit? && c.parents != []
    ensures Reaches(c, c.parents[0]) && !Reaches(c.parents[0], c)
  {
    assert FirstParents(c) == [c] + FirstParents(c.parents[0]);
    assert FirstParents(c)[1] == c.parents[0];
    if Reaches(c.parents[0], c) { ReachedIsSuffix(c.parents[0], c); }
  }
}
