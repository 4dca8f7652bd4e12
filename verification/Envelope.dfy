/** The `.schema` envelope: binding a value tree to its schema, splitting a document, classifying one,
    and the view that hides the binding (`git-store/src/envelope.rs`, `store.rs`). */
module Envelope {
  import opened Wrappers
  import opened Order
  import opened Objects
  import opened Trees
  import opened Unicode
  import Names

  /** The objects present in a database. */
  type Database = set<Object>

  datatype Error =
    | MissingObject(oid: Object) | NotATree(oid: Object) | NotSubtreeBound(commit: Object)
    | SubtreeMissing(oid: Object)

  const SCHEMA: Text := Ascii(".schema")

  /** What a reader asks for objects: the raw database, or a view of it. */
  datatype Finder = Raw(db: Database) | UnboundValue(db: Database, root: Object)

  function Without(es: seq<Entry>, name: Text): seq<Entry> {
    if es == [] then []
    else (if es[0].filename == name then [] else [es[0]]) + Without(es[1..], name)
  }

  function Hidden(es: seq<Entry>): seq<Entry> { Without(es, SCHEMA) }

  /** `Find::try_find`. The view answers for its root with the `.schema` entry removed. */
  function TryFind(f: Finder, id: Object): Option<Object> {
    if f.UnboundValue? && id == f.root && id.Tree? then Some(Tree(Hidden(id.entries)))
    else if id in f.db then Some(id) else None
  }

  function TreeOf(db: Database, id: Object): Result<seq<Entry>, Error> {
    if id !in db then Err(MissingObject(id))
    else if !id.Tree? then Err(NotATree(id))
    else Ok(id.entries)
  }

  function NewView(db: Database, root: Object): Result<Finder, Error> {
    match TreeOf(db, root)
    case Err(e) => Err(e)
    case Ok(_) => Ok(UnboundValue(db, root))
  }

  function Named(es: seq<Entry>): (r: seq<(Text, Entry)>)
    ensures |r| == |es| && forall i :: 0 <= i < |es| ==> r[i] == (es[i].filename, es[i])
  {
    seq(|es|, i requires 0 <= i < |es| => (es[i].filename, es[i]))
  }

  function FindNamed(es: seq<Entry>, name: Text): Option<Entry> { First(Named(es), name) }

  function Split(db: Database, root: Object, commit: Object): Result<(Object, Object), Error> {
    match TreeOf(db, root)
    case Err(e) => Err(e)
    case Ok(es) =>
      if |es| < 2 then Err(NotSubtreeBound(commit))
      else match FindNamed(es, SCHEMA)
        case None => Err(NotSubtreeBound(commit))
        case Some(schema) =>
          if !schema.mode.TreeMode? then Err(NotSubtreeBound(commit))
          else if schema.oid !in db then Err(SubtreeMissing(schema.oid))
          else if !schema.oid.Tree? then Err(NotATree(schema.oid))
          else Ok((root, schema.oid))
  }

  function BindEntry(schema: Object): Entry { Entry(if schema.Tree? then TreeMode else BlobMode, SCHEMA, schema) }

  function BoundEntries(es: seq<Entry>, schema: Object): seq<Entry> { SortEntries(es + [BindEntry(schema)]) }

  /** `e` is the first of `es` under its name. */
  ghost predicate FirstNamed(es: seq<Entry>, e: Entry) {
    exists i :: 0 <= i < |es| && es[i] == e && forall j :: 0 <= j < i ==> es[j].filename != e.filename
  }

  /** `e` is what the tree `root` has under `.schema`. */
  ghost predicate SchemaEntry(root: Object, e: Entry) {
    root.Tree? && e.filename == SCHEMA && FirstNamed(root.entries, e)
  }

  /** The tree `root` is a document of `schema`: beside at least one entry of its own, it has that tree
      under `.schema`. */
  ghost predicate HasSchema(root: Object, schema: Object) {
    root.Tree? && |root.entries| >= 2 && schema.Tree? && SchemaEntry(root, Entry(TreeMode, SCHEMA, schema))
  }

  lemma FoundFirst(es: seq<Entry>, e: Entry)
    ensures FindNamed(es, e.filename) == Some(e) <==> FirstNamed(es, e)
  {
    FirstMeaning(Named(es), e.filename, e);
    if i: nat :| FirstAt(Named(es), (e.filename, e), i) {
      assert es[i] == e && forall j :: 0 <= j < i ==> Named(es)[j].0 != e.filename;
    }
    if i :| 0 <= i < |es| && es[i] == e && forall j :: 0 <= j < i ==> es[j].filename != e.filename {
      assert FirstAt(Named(es), (e.filename, e), i);
    }
  }

  lemma {:induction false} FoundNamed(es: seq<Entry>, name: Text)
    ensures FindNamed(es, name).Some? ==> FindNamed(es, name).value.filename == name
    ensures FindNamed(es, name) == None <==> forall i :: 0 <= i < |es| ==> es[i].filename != name
  {
    if es != [] {
      assert Named(es)[1..] == Named(es[1..]);
      FoundNamed(es[1..], name);
      assert forall i :: 0 < i < |es| ==> es[i] == es[1..][i - 1];
    }
  }

  /** Why a tree does not split, the first of its faults. */
  ghost predicate Unsplit(db: Database, root: Object, commit: Object, f: Error) {
    match f
    case MissingObject(o) => o == root && root !in db
    case NotATree(o) =>
      root in db && (
        || (o == root && !root.Tree?)
        || (SchemaEntry(root, Entry(TreeMode, SCHEMA, o)) && |root.entries| >= 2 && o in db && !o.Tree?))
    case NotSubtreeBound(c) =>
      c == commit && root in db && root.Tree?
      && (|root.entries| >= 2 ==> forall o :: !SchemaEntry(root, Entry(TreeMode, SCHEMA, o)))
    case SubtreeMissing(o) =>
      root in db && SchemaEntry(root, Entry(TreeMode, SCHEMA, o)) && |root.entries| >= 2 && o !in db
  }

  /** Splitting succeeds for exactly the documents whose tree and schema are there, and else names the fault. */
  lemma SplitMeaning(db: Database, root: Object, commit: Object, schema: Object)
    ensures Split(db, root, commit) == Ok((root, schema)) <==> root in db && schema in db && HasSchema(root, schema)
    ensures Split(db, root, commit).Ok? ==> Split(db, root, commit).value.0 == root
    ensures Split(db, root, commit).Err? ==> Unsplit(db, root, commit, Split(db, root, commit).error)
  {
    if root.Tree? {
      FoundNamed(root.entries, SCHEMA);
      FoundFirst(root.entries, Entry(TreeMode, SCHEMA, schema));
      forall e: Entry | e.filename == SCHEMA
        ensures FindNamed(root.entries, SCHEMA) == Some(e) <==> FirstNamed(root.entries, e)
      {
        FoundFirst(root.entries, e);
      }
    }
  }

  // ---- inspection ----

  datatype ShapeError = SchemaNotTree | NoValueEntries | SchemaMissing(oid: Object)

  datatype Inspection =
    | Bound(document: Object, schema: Object)
    | LegacyValueRoot(value: Object)
    | Malformed(document: Object, found: seq<Text>, reason: ShapeError)

  function Lossily(es: seq<Entry>): (r: seq<(Text, Entry)>)
    ensures |r| == |es| && forall i :: 0 <= i < |es| ==> r[i] == (Lossy(es[i].filename), es[i])
  {
    seq(|es|, i requires 0 <= i < |es| => (Lossy(es[i].filename), es[i]))
  }

  function Keys(s: seq<(Text, Entry)>): seq<Text> {
    seq(|s|, i requires 0 <= i < |s| => s[i].0)
  }

  /** `inspect_document`. */
  function Inspect(db: Database, root: Object): Result<Inspection, Error> {
    match TreeOf(db, root)
    case Err(e) => Err(e)
    case Ok(es) =>
      var entries := Sort(TextLess, Lossily(es));
      match First(entries, SCHEMA)
      case None => Ok(LegacyValueRoot(root))
      case Some(schema) =>
        if !schema.mode.TreeMode? then Ok(Malformed(root, Keys(entries), SchemaNotTree))
        else if schema.oid !in db then Ok(Malformed(root, Keys(entries), SchemaMissing(schema.oid)))
        else if !schema.oid.Tree? then Ok(Malformed(root, Keys(entries), SchemaNotTree))
        else if |entries| < 2 then Ok(Malformed(root, Keys(entries), NoValueEntries))
        else Ok(Bound(root, schema.oid))
  }

  /** `found` are the entries' names as they decode, lossily, in order, each as often as it occurs. */
  ghost predicate NamesFound(es: seq<Entry>, found: seq<Text>) {
    exists sorted: seq<(Text, Entry)> ::
      && multiset(sorted) == multiset(Lossily(es)) && Weakly(TextLess, sorted) && found == Keys(sorted)
  }

  /** What kind of document `root` is. */
  ghost predicate Classified(db: Database, root: Object, r: Inspection)
    requires root.Tree?
  {
    match r
    case Bound(document, schema) => document == root && HasSchema(root, schema) && schema in db
    case LegacyValueRoot(value) => value == root && forall e <- root.entries :: e.filename != SCHEMA
    case Malformed(document, found, reason) =>
      document == root && NamesFound(root.entries, found) &&
      match reason
      case SchemaMissing(o) => SchemaEntry(root, Entry(TreeMode, SCHEMA, o)) && o !in db
      case SchemaNotTree =>
        exists e :: SchemaEntry(root, e) && (e.mode.TreeMode? ==> e.oid in db && !e.oid.Tree?)
      case NoValueEntries =>
        |root.entries| == 1 && exists o: Object :: SchemaEntry(root, Entry(TreeMode, SCHEMA, o)) && o in db && o.Tree?
  }

  lemma SortedNamesFound(es: seq<Entry>)
    ensures NamesFound(es, Keys(Sort(TextLess, Lossily(es))))
  {
    TextTotal();
    SortPermutes(TextLess, Lossily(es));
    SortWeakly(TextLess, Lossily(es));
  }

  /** Every tree there is gets its one answer; anything else is reported as what it is. */
  lemma InspectMeaning(db: Database, root: Object)
    ensures root !in db ==> Inspect(db, root) == Err(MissingObject(root))
    ensures root in db && !root.Tree? ==> Inspect(db, root) == Err(NotATree(root))
    ensures root in db && root.Tree? ==> Inspect(db, root).Ok? && Classified(db, root, Inspect(db, root).value)
  {
    hide TextLess, Sort, First, FindNamed, NamesFound, FirstNamed, Inspect, Classified;
    if root in db && root.Tree? {
      FoundNamed(root.entries, SCHEMA);
      var found := FindNamed(root.entries, SCHEMA);
      if found.Some? {
        FoundFirst(root.entries, found.value);
        InspectWith(db, root, found.value);
      } else {
        InspectWithout(db, root);
      }
    } else {
      InspectNone(db, root);
    }
  }

  lemma InspectNone(db: Database, root: Object)
    ensures root !in db ==> Inspect(db, root) == Err(MissingObject(root))
    ensures root in db && !root.Tree? ==> Inspect(db, root) == Err(NotATree(root))
  {
  }

  lemma InspectWithout(db: Database, root: Object)
    requires root in db && root.Tree? && FindNamed(root.entries, SCHEMA) == None
    ensures Inspect(db, root).Ok? && Classified(db, root, Inspect(db, root).value)
  {
    FoundNamed(root.entries, SCHEMA);
    SortedFirst(root.entries);
    hide Sort, First;
  }

  lemma InspectWith(db: Database, root: Object, e: Entry)
    requires root in db && root.Tree? && FindNamed(root.entries, SCHEMA) == Some(e) && SchemaEntry(root, e)
    ensures Inspect(db, root).Ok? && Classified(db, root, Inspect(db, root).value)
  {
    hide TextLess, Sort, First, FindNamed, NamesFound, FirstNamed, SchemaEntry;
    SortedFirst(root.entries);
    SortedNamesFound(root.entries);
    SchemaEntryNamed(root, e);
    assert e.mode.TreeMode? ==> e == Entry(TreeMode, SCHEMA, e.oid);
  }

  lemma SchemaEntryNamed(root: Object, e: Entry)
    requires SchemaEntry(root, e)
    ensures root.Tree? && root.entries != [] && e.filename == SCHEMA
  {
  }

  lemma {:induction false} LossyFirst(es: seq<Entry>)
    ensures First(Lossily(es), SCHEMA) == FindNamed(es, SCHEMA)
  {
    if es != [] {
      assert Lossily(es)[1..] == Lossily(es[1..]);
      assert Named(es)[1..] == Named(es[1..]);
      LossyFinds(es[0].filename, SCHEMA);
      LossyFirst(es[1..]);
    }
  }

  lemma SortedFirst(es: seq<Entry>)
    ensures First(Sort(TextLess, Lossily(es)), SCHEMA) == FindNamed(es, SCHEMA)
  {
    TextTotal();
    SortKeepsFirst(TextLess, Lossily(es), SCHEMA);
    LossyFirst(es);
  }

  /** `inspect_document` sorts by lossily decoded name before it looks, and still answers Bound for exactly
      the documents `split` accepts, with the same schema. */
  lemma BoundExactlyWhenSplits(db: Database, root: Object, commit: Object, schema: Object)
    ensures Inspect(db, root) == Ok(Bound(root, schema)) <==> Split(db, root, commit) == Ok((root, schema))
  {
    if TreeOf(db, root).Ok? { SortedFirst(root.entries); }
  }

  // ---- binding and hiding ----

  ghost predicate Bindable(value: Object) {
    value.Tree? && Canonical(value.entries) && forall e <- value.entries :: e.filename != SCHEMA
  }

  ghost predicate Lacks(ks: seq<(Text, Entry)>, name: Text) {
    forall i :: 0 <= i < |ks| ==> ks[i].1.filename != name
  }

  lemma {:induction false} WithoutKeepsOthers(ks: seq<(Text, Entry)>, name: Text)
    requires Lacks(ks, name)
    ensures Without(Unkeyed(ks), name) == Unkeyed(ks)
  {
    if ks != [] {
      assert Unkeyed(ks)[1..] == Unkeyed(ks[1..]);
      WithoutKeepsOthers(ks[1..], name);
      assert Unkeyed(ks) == [ks[0].1] + Unkeyed(ks[1..]);
    }
  }

  /** Inserting one entry and dropping its name leaves the rest as they were. */
  lemma {:induction false} InsertThenWithout(lt: (Text, Text) -> bool, ks: seq<(Text, Entry)>, x: (Text, Entry))
    requires Lacks(ks, x.1.filename)
    ensures Without(Unkeyed(Insert(lt, ks, x)), x.1.filename) == Unkeyed(ks)
  {
    var r := Insert(lt, ks, x);
    assert Unkeyed(r)[1..] == Unkeyed(r[1..]);
    if ks == [] || lt(x.0, ks[0].0) {
      assert r[1..] == ks;
      WithoutKeepsOthers(ks, x.1.filename);
    } else {
      assert r[1..] == Insert(lt, ks[1..], x);
      InsertThenWithout(lt, ks[1..], x);
      assert Unkeyed(ks) == [ks[0].1] + Unkeyed(ks[1..]);
    }
  }

  lemma {:induction false} InsertThenFind(lt: (Text, Text) -> bool, ks: seq<(Text, Entry)>, x: (Text, Entry))
    requires Lacks(ks, x.1.filename)
    ensures FindNamed(Unkeyed(Insert(lt, ks, x)), x.1.filename) == Some(x.1)
  {
    var r := Insert(lt, ks, x);
    assert Named(Unkeyed(r))[1..] == Named(Unkeyed(r[1..]));
    if ks != [] && !lt(x.0, ks[0].0) {
      assert r[1..] == Insert(lt, ks[1..], x);
      InsertThenFind(lt, ks[1..], x);
    }
  }

  /** Sorting canonical entries with one more at the end inserts that one. */
  lemma SortedWithOne(es: seq<Entry>, x: Entry)
    requires Canonical(es)
    ensures SortEntries(es + [x]) == Unkeyed(Insert(TextLess, Keyed(es), (GitKey(x), x)))
  {
    var all := es + [x];
    TextTotal();
    SortRecovers(TextLess, Keyed(es), Keyed(es));
    assert Keyed(all)[..|all| - 1] == Keyed(es) && Keyed(all)[|es|] == (GitKey(x), x);
  }

  /** Hiding `.schema` in a bound root leaves exactly the value's own entries, and looking it up
      finds exactly the schema. */
  lemma BindThenHide(value: Object, schema: Object)
    requires Bindable(value)
    ensures Hidden(BoundEntries(value.entries, schema)) == value.entries
    ensures FindNamed(BoundEntries(value.entries, schema), SCHEMA) == Some(BindEntry(schema))
  {
    var es, x := value.entries, BindEntry(schema);
    SortedWithOne(es, x);
    forall i | 0 <= i < |es| ensures Keyed(es)[i].1.filename != SCHEMA { assert es[i] in es; }
    InsertThenWithout(TextLess, Keyed(es), (GitKey(x), x));
    InsertThenFind(TextLess, Keyed(es), (GitKey(x), x));
    assert Unkeyed(Keyed(es)) == es;
  }

  /** No filename holds a slash, as Git has it. */
  predicate Slashless(es: seq<Entry>) { forall i :: 0 <= i < |es| ==> Names.SLASH !in es[i].filename }

  lemma KeyApart(e: Entry, schema: Object)
    requires e.filename != SCHEMA && Names.SLASH !in e.filename
    ensures GitKey(e) != GitKey(BindEntry(schema))
  {
    var k, x := GitKey(e), GitKey(BindEntry(schema));
    assert Names.SLASH !in SCHEMA;
    assert e.mode.TreeMode? ==> k[|e.filename|] == Names.SLASH && k[..|e.filename|] == e.filename;
    assert schema.Tree? ==> x[|SCHEMA|] == Names.SLASH && x[..|SCHEMA|] == SCHEMA;
  }

  lemma BoundCanonical(value: Object, schema: Object)
    requires Bindable(value) && Slashless(value.entries)
    ensures Canonical(BoundEntries(value.entries, schema))
  {
    var es, x := value.entries, BindEntry(schema);
    var all := es + [x];
    TextTotal();
    forall i, j | 0 <= i < j < |all| ensures Keyed(all)[i].0 != Keyed(all)[j].0 {
      assert Keyed(all)[i] == Keyed(es)[i];
      assert es[i] in es;
      if j < |es| { assert Keyed(all)[j] == Keyed(es)[j]; } else { KeyApart(es[i], schema); }
    }
    SortedIsCanonical(all);
  }

  /** What binding `value` to `schema` is to make: its entries and the schema's, in Git's order; for a value
      with no `.schema` of its own, a canonical tree that hides to the value and in which `.schema` is found
      to be the schema. */
  ghost predicate BoundTo(value: Object, schema: Object, root: Object)
    requires value.Tree?
  {
    && root.Tree? && |root.entries| == |value.entries| + 1
    && Weakly(TextLess, Keyed(root.entries))
    && (forall e :: e in root.entries <==> e in value.entries || e == BindEntry(schema))
    && (Bindable(value) ==>
          && Hidden(root.entries) == value.entries
          && FindNamed(root.entries, Ascii(".schema")) == Some(BindEntry(schema))
          && (Slashless(value.entries) ==> Canonical(root.entries)))
  }

  lemma BindingBound(value: Object, schema: Object)
    requires value.Tree?
    ensures BoundTo(value, schema, Tree(BoundEntries(value.entries, schema)))
  {
    var all := value.entries + [BindEntry(schema)];
    SortedHasSame(all);
    SortedInOrder(all);
    if Bindable(value) {
      BindThenHide(value, schema);
      if Slashless(value.entries) { BoundCanonical(value, schema); }
    }
  }

  /** `bind_schema` in place: read the value's entries, push the schema's, sort, write. */
  method BindSchema(db: Database, value: Object, schema: Object) returns (r: Result<Object, Error>)
    ensures match TreeOf(db, value)
            case Err(e) => r == Err(e)
            case Ok(_) =>
              if schema !in db then r == Err(MissingObject(schema)) else r.Ok? && BoundTo(value, schema, r.value)
  {
    match TreeOf(db, value)
    case Err(e) => return Err(e);
    case Ok(es) =>
      var entries := es;
      if schema !in db { return Err(MissingObject(schema)); }
      entries := entries + [Entry(if schema.Tree? then TreeMode else BlobMode, SCHEMA, schema)];
      entries := SortEntries(entries);
      BindingBound(value, schema);
      return Ok(Tree(entries));
  }

  /** And there is only one such tree. */
  lemma BoundToOne(value: Object, schema: Object, root: Object)
    requires Bindable(value) && Slashless(value.entries) && BoundTo(value, schema, root)
    ensures root == Bind(value, schema)
  {
    var es := BoundEntries(value.entries, schema);
    BindingBound(value, schema);
    TextTotal();
    KeyedMembers(root.entries, es);
    AscendingUnique(TextLess, Keyed(root.entries), Keyed(es));
    assert Unkeyed(Keyed(root.entries)) == root.entries && Unkeyed(Keyed(es)) == es;
  }

  function Bind(value: Object, schema: Object): Object
    requires value.Tree?
  {
    Tree(BoundEntries(value.entries, schema))
  }

  /** A binding determines both halves. */
  lemma BindInjective(v: Object, s: Object, w: Object, t: Object)
    requires Bindable(v) && Bindable(w) && Bind(v, s) == Bind(w, t)
    ensures v == w && s == t
  {
    BindThenHide(v, s);
    BindThenHide(w, t);
  }

  /** `split` recovers the schema of every non-empty binding. */
  lemma SplitOfBind(db: Database, value: Object, schema: Object, commit: Object)
    requires Bindable(value) && schema.Tree? && {schema, Bind(value, schema)} <= db
    ensures Split(db, Bind(value, schema), commit) ==
            if value.entries == [] then Err(NotSubtreeBound(commit)) else Ok((Bind(value, schema), schema))
  {
    BindThenHide(value, schema);
  }

  // ---- every recursive reader ----

  /** All a reader can learn from an id by following every edge as deep as it goes. */
  datatype Seen = Absent | Seen(data: Object, below: seq<Seen>)

  function Children(o: Object): (r: seq<Object>)
    ensures forall c <- r :: c < o
  {
    match o
    case Blob(_) => []
    case IdText(_) => []
    case Tree(es) => seq(|es|, i requires 0 <= i < |es| => es[i].oid)
    case Commit(tree, parents, _, _) => [tree] + parents
  }

  lemma {:induction false} WithoutMembers(es: seq<Entry>, name: Text)
    ensures forall e :: e in Without(es, name) <==> e in es && e.filename != name
  {
    if es != [] {
      WithoutMembers(es[1..], name);
      assert es == [es[0]] + es[1..];
    }
  }

  lemma FoundChildren(f: Finder, id: Object)
    requires TryFind(f, id).Some?
    ensures forall c <- Children(TryFind(f, id).value) :: c in Children(id)
  {
    if id.Tree? {
      WithoutMembers(id.entries, SCHEMA);
      var found := TryFind(f, id).value;
      forall c <- Children(found) ensures c in Children(id) {
        var i :| 0 <= i < |found.entries| && found.entries[i].oid == c;
        assert found.entries[i] in id.entries;
        var j :| 0 <= j < |id.entries| && id.entries[j] == found.entries[i];
        assert Children(id)[j] == c;
      }
    }
  }

  ghost function Unfold(f: Finder, id: Object): Seen
    decreases id
  {
    match TryFind(f, id)
    case None => Absent
    case Some(data) =>
      FoundChildren(f, id);
      var cs := Children(data);
      Seen(data, seq(|cs|, i requires 0 <= i < |cs| => assert cs[i] in cs; Unfold(f, cs[i])))
  }

  function Size(o: Object): nat {
    match o
    case Blob(_) => 1
    case IdText(_) => 1
    case Tree(es) => 1 + EntriesSize(es)
    case Commit(tree, parents, _, _) => 1 + Size(tree) + ObjectsSize(parents)
  }

  function EntriesSize(es: seq<Entry>): nat {
    if es == [] then 0 else Size(es[0].oid) + EntriesSize(es[1..])
  }

  function ObjectsSize(os: seq<Object>): nat {
    if os == [] then 0 else Size(os[0]) + ObjectsSize(os[1..])
  }

  lemma {:induction false} EntrySmaller(es: seq<Entry>, i: nat)
    requires i < |es|
    ensures Size(es[i].oid) <= EntriesSize(es)
  {
    if i > 0 { EntrySmaller(es[1..], i - 1); }
  }

  lemma {:induction false} ObjectSmaller(os: seq<Object>, i: nat)
    requires i < |os|
    ensures Size(os[i]) <= ObjectsSize(os)
  {
    if i > 0 { ObjectSmaller(os[1..], i - 1); }
  }

  lemma ChildSmaller(o: Object, c: Object)
    requires c in Children(o)
    ensures Size(c) < Size(o)
  {
    var cs := Children(o);
    var i :| 0 <= i < |cs| && cs[i] == c;
    match o
    case Tree(es) => EntrySmaller(es, i);
    case Commit(tree, parents, _, _) => if i > 0 { ObjectSmaller(parents, i - 1); }
    case _ =>
  }

  /** A view can be had of exactly the trees there are, and differs from the database at its root alone. */
  lemma NewViewMeaning(db: Database, root: Object)
    ensures NewView(db, root).Ok? <==> root in db && root.Tree?
    ensures NewView(db, root).Err? ==>
      NewView(db, root).error == if root in db then NotATree(root) else MissingObject(root)
    ensures NewView(db, root).Ok? ==>
      var view := NewView(db, root).value;
      && (forall id :: id != root ==> TryFind(view, id) == TryFind(Raw(db), id))
      && var found := TryFind(view, root);
      && found.Some? && found.value.Tree?
      && forall e :: e in found.value.entries <==> e in root.entries && e.filename != SCHEMA
  {
    if root.Tree? { WithoutMembers(root.entries, SCHEMA); }
  }

  /** Below the root the view is invisible: no descendant can be the root, the graph being acyclic. */
  lemma {:induction false} ViewShadowsNothing(db: Database, root: Object, id: Object)
    requires Size(id) < Size(root)
    ensures Unfold(UnboundValue(db, root), id) == Unfold(Raw(db), id)
    decreases id
  {
    if id in db {
      var cs := Children(id);
      forall i | 0 <= i < |cs|
        ensures Unfold(UnboundValue(db, root), cs[i]) == Unfold(Raw(db), cs[i])
      {
        assert cs[i] in cs;
        ChildSmaller(id, cs[i]);
        ViewShadowsNothing(db, root, cs[i]);
      }
      FoundChildren(UnboundValue(db, root), id);
      FoundChildren(Raw(db), id);
      assert Unfold(UnboundValue(db, root), id).below == Unfold(Raw(db), id).below;
    }
  }

  /** Hiding `.schema` is invisible: a bound root, followed to any depth through the view, shows
      exactly what the bare value tree shows through the database. */
  lemma HidingIsInvisible(db: Database, value: Object, schema: Object)
    requires Bindable(value) && value in db && Bind(value, schema) in db
    ensures var root := Bind(value, schema);
      && NewView(db, root) == Ok(UnboundValue(db, root))
      && Unfold(UnboundValue(db, root), root) == Unfold(Raw(db), value)
  {
    var root := Bind(value, schema);
    var view := UnboundValue(db, root);
    BindThenHide(value, schema);
    assert TryFind(view, root) == Some(value);
    var cs := Children(value);
    forall i | 0 <= i < |cs| ensures Unfold(view, cs[i]) == Unfold(Raw(db), cs[i]) {
      assert cs[i] in cs;
      FoundChildren(view, root);
      ChildSmaller(root, cs[i]);
      ViewShadowsNothing(db, root, cs[i]);
    }
    FoundChildren(Raw(db), value);
    FoundChildren(view, root);
    assert Unfold(view, root).below == Unfold(Raw(db), value).below;
  }
}
