/** Git's order on tree entries: by filename, a subtree's name counting as if a slash followed. */
module Trees {
  import opened Wrappers
  import opened Order
  import opened Objects
  import Names

  function GitKey(e: Entry): Text {
    if e.mode.TreeMode? then e.filename + [Names.SLASH] else e.filename
  }

  /** The byte that counts at `n`: within the filename its own, and just past it a subtree's slash. */
  function ByteAt(e: Entry, n: nat): Option<byte> {
    if n < |e.filename| then Some(e.filename[n])
    else if n == |e.filename| && e.mode.TreeMode? then Some('/' as int) else None
  }

  /** Git's own comparison: as far as both filenames go, byte by byte; then by the next byte, none coming first. */
  predicate GitLess(a: Entry, b: Entry) {
    var n := if |a.filename| <= |b.filename| then |a.filename| else |b.filename|;
    if a.filename[..n] != b.filename[..n] then TextLess(a.filename[..n], b.filename[..n])
    else
      match (ByteAt(a, n), ByteAt(b, n))
      case (_, None) => false
      case (None, Some(_)) => true
      case (Some(x), Some(y)) => x < y
  }

  lemma GitLessTail(a: Entry, b: Entry)
    requires a.filename != [] && b.filename != [] && a.filename[0] == b.filename[0]
    ensures GitLess(a, b) <==> GitLess(a.(filename := a.filename[1..]), b.(filename := b.filename[1..]))
  {
    var n := if |a.filename| <= |b.filename| then |a.filename| else |b.filename|;
    var x, y := a.filename[..n], b.filename[..n];
    assert x[1..] == a.filename[1..][..n - 1] && y[1..] == b.filename[1..][..n - 1];
    assert x == [x[0]] + x[1..] && y == [y[0]] + y[1..];
  }

  /** Sorting by key is sorting as Git compares. */
  lemma {:induction false} KeyOrder(a: Entry, b: Entry)
    requires Names.SLASH !in a.filename && Names.SLASH !in b.filename
    ensures TextLess(GitKey(a), GitKey(b)) <==> GitLess(a, b)
    decreases |a.filename|
  {
    var s, t := a.filename, b.filename;
    if s != [] && t != [] {
      if s[0] == t[0] {
        GitLessTail(a, b);
        KeyOrder(a.(filename := s[1..]), b.(filename := t[1..]));
        assert GitKey(a)[1..] == GitKey(a.(filename := s[1..])) && GitKey(b)[1..] == GitKey(b.(filename := t[1..]));
      } else {
        var n := if |s| <= |t| then |s| else |t|;
        assert s[..n][0] != t[..n][0];
      }
    } else {
      assert s[..0] == t[..0];
      assert s == [] ==> GitKey(a) == if a.mode.TreeMode? then [Names.SLASH] else [];
      assert t == [] ==> GitKey(b) == if b.mode.TreeMode? then [Names.SLASH] else [];
      assert s != [] ==> s[0] in s && GitKey(a)[0] == s[0];
      assert t != [] ==> t[0] in t && GitKey(b)[0] == t[0];
      if s == t && a.mode.TreeMode? && b.mode.TreeMode? {
        TextTotal();
        assert GitKey(a) == GitKey(b);
      }
    }
  }

  function Keyed(es: seq<Entry>): (r: seq<(Text, Entry)>)
    ensures |r| == |es| && forall i :: 0 <= i < |es| ==> r[i] == (GitKey(es[i]), es[i])
  {
    seq(|es|, i requires 0 <= i < |es| => (GitKey(es[i]), es[i]))
  }

  function Unkeyed(ks: seq<(Text, Entry)>): (r: seq<Entry>)
    ensures |r| == |ks| && forall i :: 0 <= i < |ks| ==> r[i] == ks[i].1
  {
    seq(|ks|, i requires 0 <= i < |ks| => ks[i].1)
  }

  function SortEntries(es: seq<Entry>): (r: seq<Entry>)
    ensures |r| == |es|
  {
    Unkeyed(Sort(TextLess, Keyed(es)))
  }

  /** Git's canonical form: every key strictly above the one before. */
  ghost predicate Canonical(es: seq<Entry>) { Ascending(TextLess, Keyed(es)) }

  lemma SortedHasSame(es: seq<Entry>)
    ensures forall e :: e in SortEntries(es) <==> e in es
  {
    forall e ensures e in SortEntries(es) <==> e in es {
      var ks := Sort(TextLess, Keyed(es));
      if e in SortEntries(es) {
        var i :| 0 <= i < |ks| && ks[i].1 == e;
        assert ks[i] in Keyed(es);
        var j :| 0 <= j < |es| && Keyed(es)[j] == ks[i];
      }
      if e in es {
        var j :| 0 <= j < |es| && es[j] == e;
        assert Keyed(es)[j] in ks;
        var i :| 0 <= i < |ks| && ks[i] == Keyed(es)[j];
        assert SortEntries(es)[i] == e;
      }
    }
  }

  lemma SortedKeyed(es: seq<Entry>)
    ensures Keyed(SortEntries(es)) == Sort(TextLess, Keyed(es))
  {
    var ks := Sort(TextLess, Keyed(es));
    forall i | 0 <= i < |ks| ensures Keyed(SortEntries(es))[i] == ks[i] {
      assert ks[i] in Keyed(es);
      var j :| 0 <= j < |es| && Keyed(es)[j] == ks[i];
    }
  }

  lemma SortedInOrder(es: seq<Entry>)
    ensures Weakly(TextLess, Keyed(SortEntries(es)))
  {
    TextTotal();
    SortWeakly(TextLess, Keyed(es));
    SortedKeyed(es);
  }

  /** Sorting entries whose keys are distinct yields a canonical tree. */
  lemma SortedIsCanonical(es: seq<Entry>)
    requires DistinctKeys(Keyed(es))
    ensures Canonical(SortEntries(es))
  {
    TextTotal();
    SortAscending(TextLess, Keyed(es));
    SortedKeyed(es);
  }

  lemma KeyedMembers(a: seq<Entry>, b: seq<Entry>)
    requires forall e :: e in a <==> e in b
    ensures forall x :: x in Keyed(a) <==> x in Keyed(b)
  {
    forall x ensures x in Keyed(a) <==> x in Keyed(b) {
      if x in Keyed(a) { KeyedMember(a, b, x); }
      if x in Keyed(b) { KeyedMember(b, a, x); }
    }
  }

  lemma KeyedMember(a: seq<Entry>, b: seq<Entry>, x: (Text, Entry))
    requires x in Keyed(a) && forall e :: e in a ==> e in b
    ensures x in Keyed(b)
  {
    var i :| 0 <= i < |a| && Keyed(a)[i] == x;
    assert a[i] in b;
    var j :| 0 <= j < |b| && b[j] == a[i];
    assert Keyed(b)[j] == x;
  }
}
