/** Typed deletion documents and what a commit's document is read as (`git-store/src/tombstone.rs`,
    `kind.rs`). The value codec is a library: a tombstone's three fields are three blobs here, and its
    schema is one fixed tree. */
module Tombstones {
  import opened Wrappers
  import opened Order
  import opened Objects
  import opened Envelope
  import opened Trees

  datatype Tombstone = Tombstone(kind: Text, entity: Object)

  datatype EntityState = Present | Deleted(tombstone: Tombstone) | Unreadable

  const TOMBSTONE_SCHEMA: Object := Tree([Entry(BlobMode, Ascii("root"), Blob(Ascii("tombstone\n")))])
  const DELETED: Object := Blob(Ascii("Deleted\n"))

  function Line(t: Text): Object { Blob(t + ['\n' as int]) }

  function Fields(t: Tombstone): Object {
    Tree([Entry(BlobMode, Ascii("entity"), IdText(t.entity)),
          Entry(BlobMode, Ascii("kind"), Line(t.kind)),
          Entry(BlobMode, Ascii("state"), DELETED)])
  }

  /** `tombstone::write`: the fields, bound to the tombstone schema. */
  function Document(t: Tombstone): Object { Bind(Fields(t), TOMBSTONE_SCHEMA) }

  /** The schema of a document root all of whose objects are present, if it is one. */
  function SchemaOf(root: Object): Option<Object> {
    match Split({root} + (set c | c in Children(root)), root, root)
    case Ok((_, schema)) => Some(schema)
    case Err(_) => None
  }

  predicate IsDocument(root: Object) { SchemaOf(root).Some? }

  function Decode(value: Object): Option<Tombstone> {
    if value.Tree? && |value.entries| == 3 && value.entries[0].oid.IdText? && value.entries[1].oid.Blob?
      && value.entries[1].oid.data != []
    then
      var text := value.entries[1].oid.data;
      var t := Tombstone(text[..|text| - 1], value.entries[0].oid.of);
      if value == Fields(t) && t.kind != [] then Some(t) else None
    else None
  }

  /** What `kind` reads a document root as: a tombstone exactly when its schema is the tombstone
      schema, and then only one of this kind. */
  function ReadDocument(kind: Text, root: Object): EntityState {
    match SchemaOf(root)
    case None => Unreadable
    case Some(schema) =>
      if schema != TOMBSTONE_SCHEMA then Present
      else match Decode(Tree(Hidden(root.entries)))
        case Some(t) => if t.kind == kind then Deleted(t) else Unreadable
        case None => Unreadable
  }

  function ReadCommit(kind: Text, commit: Object): EntityState {
    if commit.Commit? then ReadDocument(kind, commit.tree) else Unreadable
  }

  lemma FieldsBindable(t: Tombstone)
    ensures Bindable(Fields(t))
  {
    var es := Fields(t).entries;
    var entity, kind, state := Ascii("entity"), Ascii("kind"), Ascii("state");
    assert entity[0] == 'e' as int && kind[0] == 'k' as int && state[0] == 's' as int && SCHEMA[0] == '.' as int;
    assert TextLess(entity, kind) && TextLess(kind, state) && TextLess(entity, state);
    forall i, j | 0 <= i < j < 3 ensures TextLess(Keyed(es)[i].0, Keyed(es)[j].0) {}
  }

  /** A published tombstone reads back as exactly the deletion it was written for. */
  lemma DocumentReads(t: Tombstone)
    requires t.kind != []
    ensures IsDocument(Document(t))
    ensures ReadDocument(t.kind, Document(t)) == Deleted(t)
  {
    FieldsBindable(t);
    var root := Document(t);
    BindThenHide(Fields(t), TOMBSTONE_SCHEMA);
    SortedHasSame(Fields(t).entries + [BindEntry(TOMBSTONE_SCHEMA)]);
    assert BindEntry(TOMBSTONE_SCHEMA) in root.entries;
    var i :| 0 <= i < |root.entries| && root.entries[i] == BindEntry(TOMBSTONE_SCHEMA);
    assert Children(root)[i] == TOMBSTONE_SCHEMA;
    SplitOfBind({root} + (set c | c in Children(root)), Fields(t), TOMBSTONE_SCHEMA, root);
    assert Line(t.kind).data[..|t.kind|] == t.kind;
    assert Decode(Fields(t)) == Some(t);
  }

  // ---- what a commit reads as ----

  /** A document is a tree with a schema. */
  lemma DocumentMeaning(root: Object, schema: Object)
    ensures SchemaOf(root) == Some(schema) <==> HasSchema(root, schema)
  {
    var db := {root} + set c | c in Children(root);
    SplitMeaning(db, root, root, schema);
    if HasSchema(root, schema) {
      var i :| 0 <= i < |root.entries| && root.entries[i] == Entry(TreeMode, SCHEMA, schema);
      assert Children(root)[i] == schema;
    }
  }

  ghost predicate Documented(root: Object) { exists schema :: HasSchema(root, schema) }

  lemma IsDocumentMeaning(root: Object)
    ensures IsDocument(root) <==> Documented(root)
  {
    if IsDocument(root) { DocumentMeaning(root, SchemaOf(root).value); }
    if schema :| HasSchema(root, schema) { DocumentMeaning(root, schema); }
  }

  /** `c` is a live commit: its document has a schema other than the tombstone's. */
  ghost predicate Live(c: Object) {
    c.Commit? && exists schema :: HasSchema(c.tree, schema) && schema != TOMBSTONE_SCHEMA
  }

  /** `c` is a tombstone of `kind`: its document has the tombstone schema, and beside it exactly the fields of
      a deletion of that kind. */
  ghost predicate Marks(kind: Text, c: Object, t: Tombstone) {
    && c.Commit? && HasSchema(c.tree, TOMBSTONE_SCHEMA) && t.kind == kind && kind != []
    && Hidden(c.tree.entries) == Fields(t).entries
  }

  ghost predicate Marked(kind: Text, c: Object) { exists t :: Marks(kind, c, t) }

  lemma DecodeMeaning(value: Object, t: Tombstone)
    ensures Decode(value) == Some(t) <==> value == Fields(t) && t.kind != []
  {
    var text := Line(t.kind).data;
    assert text[..|text| - 1] == t.kind;
  }

  /** What a commit reads as: present exactly when live, deleted exactly when a tombstone of the kind, and
      unreadable exactly when neither. */
  lemma StateMeaning(kind: Text, c: Object)
    ensures ReadCommit(kind, c) == Present <==> Live(c)
    ensures forall t :: ReadCommit(kind, c) == EntityState.Deleted(t) <==> Marks(kind, c, t)
    ensures ReadCommit(kind, c).Deleted? <==> Marked(kind, c)
    ensures ReadCommit(kind, c) == Unreadable <==> !Live(c) && !Marked(kind, c)
  {
    if c.Commit? {
      forall schema ensures SchemaOf(c.tree) == Some(schema) <==> HasSchema(c.tree, schema) {
        DocumentMeaning(c.tree, schema);
      }
      forall t ensures ReadCommit(kind, c) == EntityState.Deleted(t) <==> Marks(kind, c, t) {
        if c.tree.Tree? { DecodeMeaning(Tree(Hidden(c.tree.entries)), t); }
      }
    }
  }

  /** Every document that is bound to a schema of its own is live, whatever its value. */
  lemma BoundIsLive(kind: Text, value: Object, schema: Object, c: Object)
    requires Bindable(value) && value.entries != [] && schema.Tree? && schema != TOMBSTONE_SCHEMA
    requires c.Commit? && c.tree == Bind(value, schema)
    ensures Live(c) && ReadCommit(kind, c) == Present && IsDocument(c.tree)
  {
    BindThenHide(value, schema);
    FoundFirst(c.tree.entries, BindEntry(schema));
    assert HasSchema(c.tree, schema);
    StateMeaning(kind, c);
    IsDocumentMeaning(c.tree);
  }
}
