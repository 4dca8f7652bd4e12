/** The persisted index of one kind: a tree of commit entries under encoded filenames
    (`git-store/src/index.rs`). */
module Index {
  import opened Wrappers
  import opened Order
  import opened Objects
  import opened RefStore
  import opened IndexCodec
  import opened Trees
  import opened Names

  type Listed = seq<(Path, Object)>

  function TreeEntries(entries: Listed): (r: seq<Entry>)
    ensures |r| == |entries|
    ensures forall i :: 0 <= i < |r| ==> r[i] == Entry(CommitMode, Encoded(entries[i].0), entries[i].1)
  {
    seq(|entries|, i requires 0 <= i < |entries| => Entry(CommitMode, Encoded(entries[i].0), entries[i].1))
  }

  function WriteTree(entries: Listed): Object { Tree(SortEntries(TreeEntries(entries))) }

  function DecodeEntries(es: seq<Entry>): Option<Listed> {
    if es == [] then Some([])
    else if !es[0].mode.CommitMode? then None
    else match (Decoded(es[0].filename), DecodeEntries(es[1..]))
      case (Some(name), Some(rest)) => Some([(name, es[0].oid)] + rest)
      case _ => None
  }

  /** The index a tree holds, or nothing when it is malformed in any way. */
  function ReadTree(tree: Object): Option<Listed> {
    if !tree.Tree? then None
    else if exists i :: 0 <= i < |tree.entries| - 1 && !TextLess(tree.entries[i].filename, tree.entries[i + 1].filename)
    then None
    else match DecodeEntries(tree.entries)
      case None => None
      case Some(decoded) =>
        var sorted := Sort(PathLess, decoded);
        if exists i :: 0 <= i < |sorted| - 1 && sorted[i].0 == sorted[i + 1].0 then None else Some(sorted)
  }

  /** The edit that brings the index ref from `current` to `entries`. */
  function Edit(reference: Text, current: Option<Object>, entries: Listed): Option<RefEdit> {
    if entries == [] then
      if current.Some? then Some(Delete(reference, current.value)) else None
    else
      var tree := WriteTree(entries);
      match current
      case Some(expected) => if expected == tree then None else Some(Update(reference, expected, tree))
      case None => Some(Create(reference, tree))
  }

  ghost predicate Writable(entries: Listed) {
    Ascending(PathLess, entries) && forall i :: 0 <= i < |entries| ==> Indexable(entries[i].0)
  }

  lemma EncodedKeys(entries: Listed)
    requires Writable(entries)
    ensures DistinctKeys(Keyed(TreeEntries(entries)))
  {
    PathTotal();
    forall i, j | 0 <= i < j < |entries| ensures Encoded(entries[i].0) != Encoded(entries[j].0) {
      if Encoded(entries[i].0) == Encoded(entries[j].0) { EncodedInjective(entries[i].0, entries[j].0); }
    }
  }

  lemma {:induction false} DecodeEach(es: seq<Entry>)
    requires forall e <- es :: e.mode.CommitMode? && Decoded(e.filename).Some?
    ensures DecodeEntries(es).Some? && |DecodeEntries(es).value| == |es|
    ensures forall i :: 0 <= i < |es| ==> DecodeEntries(es).value[i] == (Decoded(es[i].filename).value, es[i].oid)
  {
    if es != [] {
      assert es[0] in es;
      DecodeEach(es[1..]);
    }
  }

  function EntryOf(x: (Path, Object)): Entry { Entry(CommitMode, Encoded(x.0), x.1) }

  function Back(e: Entry): (Path, Object)
    requires Decoded(e.filename).Some?
  {
    (Decoded(e.filename).value, e.oid)
  }

  lemma WrittenEntries(entries: Listed)
    requires Writable(entries)
    ensures forall e <- SortEntries(TreeEntries(entries)) ::
      Decoded(e.filename).Some? && Back(e) in entries && EntryOf(Back(e)) == e
    ensures forall x <- entries ::
      EntryOf(x) in SortEntries(TreeEntries(entries)) && Decoded(Encoded(x.0)) == Some(x.0)
  {
    var source := TreeEntries(entries);
    SortedHasSame(source);
    forall e <- SortEntries(source)
      ensures Decoded(e.filename).Some? && Back(e) in entries && EntryOf(Back(e)) == e
    {
      var i :| 0 <= i < |source| && source[i] == e;
      DecodeEncoded(entries[i].0);
      assert Back(e) == entries[i];
    }
    forall x <- entries ensures EntryOf(x) in SortEntries(source) && Decoded(Encoded(x.0)) == Some(x.0) {
      var i :| 0 <= i < |entries| && entries[i] == x;
      DecodeEncoded(x.0);
      assert source[i] == EntryOf(x);
    }
  }

  lemma WrittenOrder(entries: Listed)
    requires Writable(entries)
    ensures var es := SortEntries(TreeEntries(entries));
      forall i, j :: 0 <= i < j < |es| ==> TextLess(es[i].filename, es[j].filename)
  {
    var source := TreeEntries(entries);
    var es := SortEntries(source);
    EncodedKeys(entries);
    SortedIsCanonical(source);
    WrittenEntries(entries);
    forall i, j | 0 <= i < j < |es| ensures TextLess(es[i].filename, es[j].filename) {
      assert es[i] in es && es[j] in es;
      assert TextLess(Keyed(es)[i].0, Keyed(es)[j].0);
    }
  }

  /** What `read_tree` decodes from a written tree, before it sorts: the same pairs, reordered. */
  lemma DecodesSame(entries: Listed)
    requires Writable(entries)
    ensures var d := DecodeEntries(SortEntries(TreeEntries(entries)));
      d.Some? && DistinctKeys(d.value) && forall x :: x in d.value <==> x in entries
  {
    var es := SortEntries(TreeEntries(entries));
    WrittenEntries(entries);
    WrittenOrder(entries);
    DecodeEach(es);
    var d := DecodeEntries(es).value;
    forall x ensures x in d <==> x in entries {
      if x in d {
        var k :| 0 <= k < |d| && d[k] == x;
        assert es[k] in es && d[k] == Back(es[k]);
      }
      if x in entries {
        var k :| 0 <= k < |es| && es[k] == EntryOf(x);
        assert d[k] == x;
      }
    }
    TextTotal();
    forall j, k | 0 <= j < k < |d| ensures d[j].0 != d[k].0 {
      assert es[j] in es && es[k] in es;
      assert es[j] == EntryOf(Back(es[j])) && es[k] == EntryOf(Back(es[k]));
    }
  }

  /** Every listing `edit` can write reads back as exactly itself, although the tree is ordered by
      encoded filename and not by path. */
  lemma ReadWritten(entries: Listed)
    requires Writable(entries)
    ensures ReadTree(WriteTree(entries)) == Some(entries)
  {
    PathTotal();
    TextTotal();
    var es := SortEntries(TreeEntries(entries));
    WrittenOrder(entries);
    DecodesSame(entries);
    SortRecovers(PathLess, DecodeEntries(es).value, entries);
  }

  // ---- what is read ----

  /** Filenames in strict order, every entry a commit under a name that decodes, no name twice. */
  ghost predicate Readable(es: seq<Entry>) {
    && (forall i, j :: 0 <= i < j < |es| ==> TextLess(es[i].filename, es[j].filename))
    && (forall i :: 0 <= i < |es| ==> es[i].mode.CommitMode? && Decoded(es[i].filename).Some?)
    && (forall i, j :: 0 <= i < j < |es| ==> Decoded(es[i].filename) != Decoded(es[j].filename))
  }

  ghost predicate BackAt(es: seq<Entry>, i: int, x: (Path, Object)) {
    0 <= i < |es| && Decoded(es[i].filename) == Some(x.0) && es[i].oid == x.1
  }

  lemma {:induction false} DecodedEach(es: seq<Entry>)
    requires DecodeEntries(es).Some?
    ensures forall i :: 0 <= i < |es| ==> es[i].mode.CommitMode? && Decoded(es[i].filename).Some?
  {
    if es != [] { DecodedEach(es[1..]); }
  }

  lemma {:induction false} FilenamesAscend(es: seq<Entry>, i: nat, j: nat)
    requires Total(TextLess) && i < j < |es|
    requires forall k :: 0 <= k < |es| - 1 ==> TextLess(es[k].filename, es[k + 1].filename)
    ensures TextLess(es[i].filename, es[j].filename)
    decreases j
  {
    assert TextLess(es[j - 1].filename, es[(j - 1) + 1].filename);
    if i < j - 1 { FilenamesAscend(es, i, j - 1); }
  }

  lemma FilenamesOrdered(es: seq<Entry>)
    ensures (forall k :: 0 <= k < |es| - 1 ==> TextLess(es[k].filename, es[k + 1].filename)) <==>
            forall i, j :: 0 <= i < j < |es| ==> TextLess(es[i].filename, es[j].filename)
  {
    hide TextLess;
    TextTotal();
    if forall k :: 0 <= k < |es| - 1 ==> TextLess(es[k].filename, es[k + 1].filename) {
      forall i, j | 0 <= i < j < |es| ensures TextLess(es[i].filename, es[j].filename) { FilenamesAscend(es, i, j); }
    }
  }

  lemma DecodedReads(es: seq<Entry>)
    requires forall i :: 0 <= i < |es| ==> es[i].mode.CommitMode? && Decoded(es[i].filename).Some?
    ensures DecodeEntries(es).Some? && |DecodeEntries(es).value| == |es|
    ensures forall i :: 0 <= i < |es| ==>
              Decoded(es[i].filename) == Some(DecodeEntries(es).value[i].0) && es[i].oid == DecodeEntries(es).value[i].1
    ensures DistinctKeys(DecodeEntries(es).value) <==>
      forall i, j :: 0 <= i < j < |es| ==> Decoded(es[i].filename) != Decoded(es[j].filename)
    ensures forall x :: x in DecodeEntries(es).value <==> exists i :: BackAt(es, i, x)
  {
    DecodeEach(es);
    var d := DecodeEntries(es).value;
    forall x ensures x in d <==> exists i :: BackAt(es, i, x) {
      if x in d {
        var i :| 0 <= i < |d| && d[i] == x;
        assert BackAt(es, i, x);
      }
      if i :| BackAt(es, i, x) { assert d[i] == x; }
    }
  }

  /** Which trees are read, exactly, and as what: the names they decode to, in order, each with its commit. */
  lemma ReadTreeMeaning(tree: Object)
    ensures ReadTree(tree).Some? <==> tree.Tree? && Readable(tree.entries)
    ensures ReadTree(tree).Some? ==>
      && |ReadTree(tree).value| == |tree.entries| && Ascending(PathLess, ReadTree(tree).value)
      && forall x :: x in ReadTree(tree).value <==> exists i :: BackAt(tree.entries, i, x)
  {
    hide Decoded, TextLess, PathLess, Sort, Ascending, DistinctKeys, DecodeEntries, Total;
    if tree.Tree? {
      var es := tree.entries;
      PathTotal();
      FilenamesOrdered(es);
      if DecodeEntries(es).Some? { DecodedEach(es); }
      if forall i :: 0 <= i < |es| ==> es[i].mode.CommitMode? && Decoded(es[i].filename).Some? {
        DecodedReads(es);
        SortedNames(DecodeEntries(es).value);
      }
    }
  }

  lemma SortedNames(decoded: Listed)
    requires Total(PathLess)
    ensures var s := Sort(PathLess, decoded);
      && (DistinctKeys(decoded) <==> forall i :: 0 <= i < |s| - 1 ==> s[i].0 != s[i + 1].0)
      && (DistinctKeys(decoded) ==> Ascending(PathLess, s))
  {
    var s := Sort(PathLess, decoded);
    SortWeakly(PathLess, decoded);
    if DistinctKeys(decoded) {
      SortAscending(PathLess, decoded);
      forall i | 0 <= i < |s| - 1 ensures s[i].0 != s[i + 1].0 { assert PathLess(s[i].0, s[i + 1].0); }
    }
    if forall i :: 0 <= i < |s| - 1 ==> s[i].0 != s[i + 1].0 {
      forall i, j | 0 <= i < j < |s| ensures PathLess(s[i].0, s[j].0) { WeaklyAscends(PathLess, s, i, j); }
      SortedApart(PathLess, decoded);
    }
  }

  // ---- listings as maps ----

  ghost function ListingOf(m: map<Path, Object>): Listed {
    PathTotal();
    Listing(PathLess, m)
  }

  ghost predicate AllIndexable(m: map<Path, Object>) { forall p <- m :: Indexable(p) }

  /** The object an index ref holds for these entities, and nothing when there are none. */
  ghost function IndexValue(m: map<Path, Object>): Option<Object> {
    if m == map[] then None else Some(WriteTree(ListingOf(m)))
  }

  ghost function MapOf(entries: Listed): map<Path, Object> {
    map k | k in (set x | x in entries :: x.0) && First(entries, k).Some? :: First(entries, k).value
  }

  /** The entities an index ref names: the inverse of `IndexValue`. */
  ghost function IndexMap(index: Option<Object>): map<Path, Object> {
    if index == None || ReadTree(index.value) == None then map[] else MapOf(ReadTree(index.value).value)
  }

  lemma {:induction false} FirstOfAscending(s: Listed, x: (Path, Object))
    requires Ascending(PathLess, s) && x in s
    ensures First(s, x.0) == Some(x.1)
  {
    PathTotal();
    HeadLeast(PathLess, s, x);
    if s[0].0 != x.0 { FirstOfAscending(s[1..], x); }
  }

  lemma MapOfListing(m: map<Path, Object>)
    ensures MapOf(ListingOf(m)) == m
  {
    var entries := ListingOf(m);
    var keys := set x | x in entries :: x.0;
    forall k <- m ensures k in keys && First(entries, k) == Some(m[k]) {
      assert (k, m[k]) in entries && (k, m[k]).0 == k;
      FirstOfAscending(entries, (k, m[k]));
    }
    forall k <- keys ensures k in m {
      var x :| x in entries && x.0 == k;
    }
  }

  /** No two sets of entities share an index object. */
  lemma IndexMapOfValue(m: map<Path, Object>)
    requires forall p <- m :: Indexable(p)
    ensures IndexMap(IndexValue(m)) == m
  {
    if m != map[] {
      var entries := ListingOf(m);
      forall i | 0 <= i < |entries| ensures Indexable(entries[i].0) { assert entries[i] in entries; }
      ReadWritten(entries);
      MapOfListing(m);
    }
  }

  /** Different entities have different index objects. */
  lemma IndexesDiffer(a: map<Path, Object>, b: map<Path, Object>)
    requires a != b && AllIndexable(a) && AllIndexable(b)
    ensures IndexValue(a) != IndexValue(b)
  {
    IndexMapOfValue(a);
    IndexMapOfValue(b);
  }

  lemma Replaced(m: map<Path, Object>, i: nat, commit: Object)
    requires i < |ListingOf(m)|
    ensures ListingOf(m)[i := (ListingOf(m)[i].0, commit)] == ListingOf(m[ListingOf(m)[i].0 := commit])
  {
    PathTotal();
    var entries := ListingOf(m);
    var name := entries[i].0;
    var out := entries[i := (name, commit)];
    forall x ensures x in out <==> x in ListingOf(m[name := commit]) {
      if x in entries && x.0 != name {
        var j :| 0 <= j < |entries| && entries[j] == x;
        assert out[j] == x;
      }
      if x == (name, commit) { assert out[i] == x; }
      if x in out {
        var j :| 0 <= j < |out| && out[j] == x;
        assert j != i ==> entries[j] in entries;
      }
    }
    AscendingUnique(PathLess, out, ListingOf(m[name := commit]));
  }

  lemma Added(m: map<Path, Object>, name: Path, commit: Object)
    requires forall i :: 0 <= i < |ListingOf(m)| ==> ListingOf(m)[i].0 != name
    ensures Sort(PathLess, ListingOf(m) + [(name, commit)]) == ListingOf(m[name := commit])
  {
    PathTotal();
    var entries := ListingOf(m);
    forall x <- entries ensures x.0 != name {
      var i :| 0 <= i < |entries| && entries[i] == x;
    }
    SortRecovers(PathLess, entries + [(name, commit)], ListingOf(m[name := commit]));
  }

  /** The listing with one entry overwritten in place, or pushed and sorted in: the loop body of every
      writer. */
  method Upsert(entries: Listed, name: Path, commit: Object, ghost m: map<Path, Object>) returns (out: Listed)
    requires entries == ListingOf(m)
    ensures out == ListingOf(m[name := commit])
  {
    out := entries;
    for i := 0 to |entries|
      invariant forall j :: 0 <= j < i ==> entries[j].0 != name
    {
      if entries[i].0 == name {
        out := out[i := (name, commit)];
        Replaced(m, i, commit);
        return;
      }
    }
    out := out + [(name, commit)];
    Added(m, name, commit);
    out := Sort(PathLess, out);
  }
}
