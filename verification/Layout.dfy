/** Where a store's refs live, and one kind's entities as a map (`git-store/src/store.rs`, `index.rs`). */
module Layout {
  import opened Wrappers
  import opened Order
  import opened Objects
  import opened RefStore
  import opened IndexCodec
  import opened Names

  const DATA: Text := Child(Ascii("refs"), Ascii("store"))
  const CACHE: Text := Child(Ascii("refs"), Ascii("cache"))
  const INDEX: Text := Ascii("index-v1")
  const K: byte := 'k' as int

  function Entities(kind: Text): Text { Child(DATA, kind) }

  function EntityRef(kind: Text, p: Path): Text
    requires p != []
  {
    JoinPath(Entities(kind), p)
  }

  function EncodedKind(kind: Text): Text { [K] + Hex(kind) }

  function IndexRef(kind: Text): Text { Child(Child(CACHE, EncodedKind(kind)), INDEX) }

  lemma DataSpelled()
    ensures DATA + [SLASH] == Ascii("refs/store/")
  {
  }

  lemma CacheSpelled()
    ensures CACHE + [SLASH] + [K] == Ascii("refs/cache/k") && [SLASH] + INDEX == Ascii("/index-v1")
  {
  }

  /** The refs of a kind, spelled out. */
  lemma RefsSpelled(kind: Text, p: Path)
    requires p != []
    ensures EntityRef(kind, p) == Ascii("refs/store/") + kind + ['/' as int] + Join(p)
    ensures IndexRef(kind) == Ascii("refs/cache/k") + Hex(kind) + Ascii("/index-v1")
  {
    hide Ascii, Join, Hex;
    DataSpelled();
    CacheSpelled();
    assert EntityRef(kind, p) == (DATA + [SLASH]) + kind + [SLASH] + Join(p);
    assert IndexRef(kind) == (CACHE + [SLASH] + [K]) + Hex(kind) + ([SLASH] + INDEX);
  }

  /** `m` is the entities of `kind`: every valid name that has a ref, with what its ref holds. */
  ghost predicate IsSource(refs: Refs, kind: Text, m: map<Path, Object>) {
    forall p ::
      && (p in m <==> ValidPath(p) && EntityRef(kind, p) in refs)
      && (p in m ==> m[p] == refs[EntityRef(kind, p)])
  }

  lemma SourceExists(refs: Refs, kind: Text) returns (m: map<Path, Object>)
    ensures IsSource(refs, kind, m)
  {
    var prefix := Entities(kind);
    forall n | n in refs && RelativeTo(n, prefix).Some?
      ensures ValidPath(RelativeTo(n, prefix).value) && EntityRef(kind, RelativeTo(n, prefix).value) == n
    {
      JoinOfRelative(n, prefix);
    }
    var names := set n | n in refs && RelativeTo(n, prefix).Some? :: RelativeTo(n, prefix).value;
    m := map p | p in names :: refs[EntityRef(kind, p)];
    forall p | ValidPath(p) && EntityRef(kind, p) in refs ensures p in m {
      RelativeOfJoin(prefix, p);
      assert RelativeTo(EntityRef(kind, p), prefix).value in names;
    }
  }

  ghost function Source(refs: Refs, kind: Text): map<Path, Object> {
    assert exists m :: IsSource(refs, kind, m) by { var m := SourceExists(refs, kind); }
    var m :| IsSource(refs, kind, m);
    m
  }

  // ---- the names are valid and never collide ----

  predicate Plain(c: byte) { 'a' as int <= c <= 'z' as int || '0' as int <= c <= '9' as int || c == '-' as int }

  lemma {:induction false} PlainChars(s: Text)
    requires forall i :: 0 <= i < |s| ==> Plain(s[i])
    ensures CharDefect(s) == None
  {
    if s != [] {
      assert Plain(s[0]);
      assert !Forbidden(s[0]) by {
        var f := Ascii("~^:?*[\\");
        forall i | 0 <= i < |f| ensures f[i] != s[0] { assert !Plain(f[i]); }
      }
      PlainChars(s[1..]);
    }
  }

  lemma PlainSegment(s: Text)
    requires s != [] && forall i :: 0 <= i < |s| ==> Plain(s[i])
    ensures ValidSegment(s)
  {
    PlainChars(s);
    assert forall i :: 0 <= i < |s| ==> s[i] != DOT && s[i] != AT && s[i] != SLASH;
    assert !EndsWith(s, Ascii(".lock")) by {
      if |s| >= 5 { assert s[|s| - 5..][0] != Ascii(".lock")[0]; }
    }
  }

  lemma {:induction false} HexPlain(s: Text)
    ensures forall i :: 0 <= i < |Hex(s)| ==> Plain(Hex(s)[i])
  {
    if s != [] { HexPlain(s[1..]); }
  }

  lemma JoinThree(a: Text, b: Text, c: Text)
    ensures Join([a, b, c]) == Child(Child(a, b), c)
  {
    assert [a, b, c] == [a, b] + [c] && [a, b] == [a] + [b];
    JoinAppend([a, b], [c]);
    JoinAppend([a], [b]);
  }

  /** The index ref is a valid name for every kind, so building it never panics. */
  lemma IndexRefValid(kind: Text)
    ensures ValidName(IndexRef(kind))
  {
    HexPlain(kind);
    var p := [Ascii("refs"), Ascii("cache"), EncodedKind(kind), INDEX];
    forall i | 0 <= i < 4 ensures ValidSegment(p[i]) { PlainSegment(p[i]); }
    var front := [Ascii("refs"), Ascii("cache"), EncodedKind(kind)];
    assert p == front + [INDEX];
    JoinThree(front[0], front[1], front[2]);
    JoinAppend(front, [INDEX]);
    ParseDisplay(p);
  }

  lemma PlainWords()
    ensures ValidSegment(Ascii("refs")) && ValidSegment(Ascii("store"))
  {
    PlainSegment(Ascii("refs"));
    PlainSegment(Ascii("store"));
  }

  lemma PathValid(p: Path)
    requires ValidPath(p)
    ensures ValidName(Join(p))
  {
    ParseDisplay(p);
  }

  lemma EntitiesValid(kind: Text)
    requires ValidSegment(kind)
    ensures ValidName(Entities(kind))
  {
    hide Ascii, Join, NewPath, ValidSegment, Display;
    PlainWords();
    var refs, store := Ascii("refs"), Ascii("store");
    var p := [refs, store, kind];
    assert ValidPath(p);
    JoinThree(refs, store, kind);
    PathValid(p);
  }

  /** Every entity of a kind has a valid ref, and no two share one. */
  lemma EntityRefValid(kind: Text, p: Path)
    requires ValidSegment(kind) && ValidPath(p)
    ensures ValidName(EntityRef(kind, p))
  {
    EntitiesValid(kind);
    JoinPathValid(Entities(kind), p);
  }

  lemma ChildPathInjective(prefix: Text, kind: Text, p: Path, other: Text, q: Path)
    requires ValidSegment(kind) && ValidSegment(other) && ValidPath(p) && ValidPath(q)
    requires JoinPath(Child(prefix, kind), p) == JoinPath(Child(prefix, other), q)
    ensures kind == other && p == q
  {
    var a, b := kind + [SLASH] + Join(p), other + [SLASH] + Join(q);
    var n := |prefix| + 1;
    assert JoinPath(Child(prefix, kind), p)[n..] == a && JoinPath(Child(prefix, other), q)[n..] == b;
    SplitJoined(kind, Join(p));
    SplitJoined(other, Join(q));
    SplitSlashFree(kind);
    SplitSlashFree(other);
    ParseDisplay(p);
    ParseDisplay(q);
    assert Split(a)[0] == Split(b)[0] && Split(a)[1..] == p && Split(b)[1..] == q;
  }

  lemma EntityRefInjective(kind: Text, p: Path, other: Text, q: Path)
    requires ValidSegment(kind) && ValidSegment(other) && ValidPath(p) && ValidPath(q)
    requires EntityRef(kind, p) == EntityRef(other, q)
    ensures kind == other && p == q
  {
    ChildPathInjective(DATA, kind, p, other, q);
  }

  lemma MiddleInjective(before: Text, a: Text, b: Text, after: Text)
    requires before + a + after == before + b + after
    ensures a == b
  {
    var x, y := before + a + after, before + b + after;
    assert x[|before|..|x| - |after|] == a && y[|before|..|y| - |after|] == b;
  }

  lemma IndexRefInjective(kind: Text, other: Text)
    requires IndexRef(kind) == IndexRef(other)
    ensures kind == other
  {
    var before, after := CACHE + [SLASH] + [K], [SLASH] + INDEX;
    assert IndexRef(kind) == before + Hex(kind) + after;
    assert IndexRef(other) == before + Hex(other) + after;
    MiddleInjective(before, Hex(kind), Hex(other), after);
    UnhexHex(kind);
    UnhexHex(other);
  }

  /** An index ref is not under any kind's entities. */
  lemma IndexApart(kind: Text, other: Text)
    ensures RelativeTo(IndexRef(kind), Entities(other)) == None
  {
    assert IndexRef(kind)[5] == 'c' as int;
    assert Entities(other)[5] == 's' as int;
  }

  // ---- the source map under writes ----

  lemma SourceMember(refs: Refs, kind: Text, p: Path)
    ensures p in Source(refs, kind) <==> ValidPath(p) && EntityRef(kind, p) in refs
    ensures p in Source(refs, kind) ==> Source(refs, kind)[p] == refs[EntityRef(kind, p)]
  {
    assert IsSource(refs, kind, Source(refs, kind));
  }

  lemma SourceOfEntityWrite(refs: Refs, kind: Text, p: Path, commit: Object)
    requires ValidPath(p)
    ensures Source(refs[EntityRef(kind, p) := commit], kind) == Source(refs, kind)[p := commit]
  {
    var after := refs[EntityRef(kind, p) := commit];
    forall q ensures q in Source(after, kind) <==> q in Source(refs, kind)[p := commit]
      ensures q in Source(after, kind) ==> Source(after, kind)[q] == Source(refs, kind)[p := commit][q]
    {
      SourceMember(after, kind, q);
      SourceMember(refs, kind, q);
      if ValidPath(q) && EntityRef(kind, q) == EntityRef(kind, p) {
        RelativeOfJoin(Entities(kind), p);
        RelativeOfJoin(Entities(kind), q);
      }
    }
  }

  /** A write to any ref that is not an entity of `kind` leaves its source alone. */
  lemma SourceFrame(refs: Refs, kind: Text, e: RefEdit)
    requires RelativeTo(e.name, Entities(kind)) == None
    ensures Source(Write(refs, e), kind) == Source(refs, kind)
  {
    forall q ensures q in Source(Write(refs, e), kind) <==> q in Source(refs, kind)
      ensures q in Source(refs, kind) ==> Source(Write(refs, e), kind)[q] == Source(refs, kind)[q]
    {
      SourceMember(Write(refs, e), kind, q);
      SourceMember(refs, kind, q);
      if ValidPath(q) { RelativeOfJoin(Entities(kind), q); }
    }
  }

  lemma OtherKindApart(kind: Text, p: Path, other: Text)
    requires ValidSegment(kind) && ValidSegment(other) && ValidPath(p) && kind != other
    ensures RelativeTo(EntityRef(kind, p), Entities(other)) == None
  {
    if RelativeTo(EntityRef(kind, p), Entities(other)).Some? {
      JoinOfRelative(EntityRef(kind, p), Entities(other));
      EntityRefInjective(kind, p, other, RelativeTo(EntityRef(kind, p), Entities(other)).value);
    }
  }
}
