/** What `Kind::fingerprint` feeds its hasher (`git-store/src/kind.rs`). */
module Fingerprint {
  import opened Order
  import opened Names

  const U64_LIMIT: nat := 0x1_0000_0000_0000_0000

  /** An object id in one repository: `width` bytes, 20 or 32. */
  type Entry = (Path, Text)

  function Domain(): Text {
    Ascii("gix-store") + [0] + Ascii("kind-fingerprint") + [0] + Ascii("v1") + [0]
  }

  /** `n` in `width` big-endian bytes: `to_be_bytes` of a `u64` is `BigEndian(n, 8)`. */
  function BigEndian(n: nat, width: nat): (t: Text)
    ensures |t| == width
  {
    if width == 0 then [] else BigEndian(n / 0x100, width - 1) + [n % 0x100]
  }

  function Framed(t: Text): Text { BigEndian(|t|, 8) + t }

  function Segments(p: Path): Text { if p == [] then [] else Framed(p[0]) + Segments(p[1..]) }

  function EntryBytes(e: Entry): Text { BigEndian(|e.0|, 8) + Segments(e.0) + e.1 }

  function Entries(es: seq<Entry>): Text { if es == [] then [] else EntryBytes(es[0]) + Entries(es[1..]) }

  function Body(kind: Text, entries: seq<Entry>): Text {
    Framed(kind) + (BigEndian(|entries|, 8) + Entries(entries))
  }

  function Preimage(kind: Text, entries: seq<Entry>): Text { Domain() + Body(kind, entries) }

  method FeedBytes(fed: Text, bytes: Text) returns (out: Text)
    ensures out == fed + Framed(bytes)
  {
    out := fed + BigEndian(|bytes|, 8);
    out := out + bytes;
  }

  method FeedSegments(fed: Text, name: Path) returns (out: Text)
    ensures out == fed + Segments(name)
  {
    out := fed;
    for j := 0 to |name|
      invariant out + Segments(name[j..]) == fed + Segments(name)
    {
      assert name[j..][1..] == name[j + 1..] && name[j..][0] == name[j];
      out := FeedBytes(out, name[j]);
    }
  }

  method FeedEntry(fed: Text, e: Entry) returns (out: Text)
    ensures out == fed + EntryBytes(e)
  {
    out := fed + BigEndian(|e.0|, 8);
    out := FeedSegments(out, e.0);
    out := out + e.1;
  }

  /** The nested loops, after the hasher has been fed `domain`. */
  method FeedAfter(domain: Text, kind: Text, entries: seq<Entry>) returns (fed: Text)
    ensures fed == domain + Body(kind, entries)
  {
    fed := FeedBytes(domain, kind);
    fed := fed + BigEndian(|entries|, 8);
    ghost var head := fed;
    for i := 0 to |entries|
      invariant fed + Entries(entries[i..]) == head + Entries(entries)
    {
      assert entries[i..][1..] == entries[i + 1..] && entries[i..][0] == entries[i];
      fed := FeedEntry(fed, entries[i]);
    }
    assert fed + [] == fed;
    Assoc(domain + Framed(kind), BigEndian(|entries|, 8), Entries(entries));
    Assoc(domain, Framed(kind), BigEndian(|entries|, 8) + Entries(entries));
  }

  /** The bytes the hasher has been fed when the loops end. */
  method Feed(kind: Text, entries: seq<Entry>) returns (fed: Text)
    ensures fed == Preimage(kind, entries)
  {
    fed := FeedAfter(Domain(), kind, entries);
  }

  /** The three null-terminated words every fingerprint starts with. */
  lemma DomainBytes()
    ensures Domain() == [103, 105, 120, 45, 115, 116, 111, 114, 101, 0] +
            [107, 105, 110, 100, 45, 102, 105, 110, 103, 101, 114, 112, 114, 105, 110, 116, 0] + [118, 49, 0]
  {
    assert Ascii("gix-store") == [103, 105, 120, 45, 115, 116, 111, 114, 101];
    assert Ascii("kind-fingerprint") == [107, 105, 110, 100, 45, 102, 105, 110, 103, 101, 114, 112, 114, 105, 110, 116];
    assert Ascii("v1") == [118, 49];
    hide Ascii;
  }

  /** What bytes stand for, the first weighing most. */
  function Base256(t: Text): nat { if t == [] then 0 else Base256(t[..|t| - 1]) * 0x100 + t[|t| - 1] }

  lemma {:induction false} BigEndianValue(n: nat, width: nat)
    requires n < Power256(width)
    ensures Base256(BigEndian(n, width)) == n
  {
    if width > 0 {
      BigEndianValue(n / 0x100, width - 1);
      assert BigEndian(n, width)[..width - 1] == BigEndian(n / 0x100, width - 1);
    }
  }

  // ---- injectivity ----

  lemma {:induction false} BigEndianInjective(m: nat, n: nat, width: nat)
    requires m < Power256(width) && n < Power256(width) && BigEndian(m, width) == BigEndian(n, width)
    ensures m == n
  {
    if width > 0 {
      var a, b := BigEndian(m, width), BigEndian(n, width);
      assert a[..width - 1] == BigEndian(m / 0x100, width - 1) && b[..width - 1] == BigEndian(n / 0x100, width - 1);
      assert a[width - 1] == m % 0x100 && b[width - 1] == n % 0x100;
      BigEndianInjective(m / 0x100, n / 0x100, width - 1);
    }
  }

  function Power256(k: nat): nat { if k == 0 then 1 else 0x100 * Power256(k - 1) }

  lemma CountInjective(m: nat, x: Text, n: nat, y: Text)
    requires m < U64_LIMIT && n < U64_LIMIT && BigEndian(m, 8) + x == BigEndian(n, 8) + y
    ensures m == n && x == y
  {
    assert Power256(4) == 0x1_0000_0000;
    assert Power256(8) == U64_LIMIT;
    assert (BigEndian(m, 8) + x)[..8] == BigEndian(m, 8) && (BigEndian(n, 8) + y)[..8] == BigEndian(n, 8);
    assert (BigEndian(m, 8) + x)[8..] == x && (BigEndian(n, 8) + y)[8..] == y;
    BigEndianInjective(m, n, 8);
  }

  lemma FramedInjective(a: Text, x: Text, b: Text, y: Text)
    requires |a| < U64_LIMIT && |b| < U64_LIMIT && Framed(a) + x == Framed(b) + y
    ensures a == b && x == y
  {
    assert Framed(a) + x == BigEndian(|a|, 8) + (a + x);
    assert Framed(b) + y == BigEndian(|b|, 8) + (b + y);
    CountInjective(|a|, a + x, |b|, b + y);
    assert (a + x)[..|a|] == a && (b + y)[..|b|] == b;
    assert (a + x)[|a|..] == x && (b + y)[|b|..] == y;
  }

  predicate Short(p: Path) { |p| < U64_LIMIT && forall i :: 0 <= i < |p| ==> |p[i]| < U64_LIMIT }

  lemma {:induction false} SegmentsInjective(p: Path, x: Text, q: Path, y: Text)
    requires |p| == |q| && Short(p) && Short(q) && Segments(p) + x == Segments(q) + y
    ensures p == q && x == y
  {
    if p == [] {
      assert Segments(p) + x == x && Segments(q) + y == y;
    } else {
      Assoc(Framed(p[0]), Segments(p[1..]), x);
      Assoc(Framed(q[0]), Segments(q[1..]), y);
      FramedInjective(p[0], Segments(p[1..]) + x, q[0], Segments(q[1..]) + y);
      SegmentsInjective(p[1..], x, q[1..], y);
      assert p == [p[0]] + p[1..] && q == [q[0]] + q[1..];
    }
  }

  predicate Hashable(es: seq<Entry>, width: nat) {
    |es| < U64_LIMIT && forall i :: 0 <= i < |es| ==> Short(es[i].0) && |es[i].1| == width
  }

  lemma EntryInjective(e: Entry, x: Text, f: Entry, y: Text)
    requires Short(e.0) && Short(f.0) && |e.1| == |f.1| && EntryBytes(e) + x == EntryBytes(f) + y
    ensures e == f && x == y
  {
    var a, b := Segments(e.0) + (e.1 + x), Segments(f.0) + (f.1 + y);
    Assoc(BigEndian(|e.0|, 8) + Segments(e.0), e.1, x);
    Assoc(BigEndian(|e.0|, 8), Segments(e.0), e.1 + x);
    Assoc(BigEndian(|f.0|, 8) + Segments(f.0), f.1, y);
    Assoc(BigEndian(|f.0|, 8), Segments(f.0), f.1 + y);
    CountInjective(|e.0|, a, |f.0|, b);
    SegmentsInjective(e.0, e.1 + x, f.0, f.1 + y);
    assert (e.1 + x)[..|e.1|] == e.1 && (f.1 + y)[..|f.1|] == f.1;
    assert (e.1 + x)[|e.1|..] == x && (f.1 + y)[|f.1|..] == y;
  }

  lemma {:induction false} EntriesInjective(es: seq<Entry>, fs: seq<Entry>, width: nat)
    requires |es| == |fs| && Hashable(es, width) && Hashable(fs, width) && Entries(es) == Entries(fs)
    ensures es == fs
  {
    if es != [] {
      EntryInjective(es[0], Entries(es[1..]), fs[0], Entries(fs[1..]));
      EntriesInjective(es[1..], fs[1..], width);
      assert es == [es[0]] + es[1..] && fs == [fs[0]] + fs[1..];
    }
  }

  lemma DomainStripped(a: Text, b: Text)
    requires Domain() + a == Domain() + b
    ensures a == b
  {
    var n := |Domain()|;
    assert (Domain() + a)[n..] == a && (Domain() + b)[n..] == b;
  }

  lemma BodyInjective(kind: Text, es: seq<Entry>, other: Text, fs: seq<Entry>, width: nat)
    requires |kind| < U64_LIMIT && |other| < U64_LIMIT && Hashable(es, width) && Hashable(fs, width)
    requires Body(kind, es) == Body(other, fs)
    ensures kind == other && es == fs
  {
    FramedInjective(kind, BigEndian(|es|, 8) + Entries(es), other, BigEndian(|fs|, 8) + Entries(fs));
    CountInjective(|es|, Entries(es), |fs|, Entries(fs));
    EntriesInjective(es, fs, width);
  }

  /** The digest is taken over bytes that determine the kind and the whole listing, so two states share
      a fingerprint only by colliding in the hash. */
  lemma PreimageInjective(kind: Text, es: seq<Entry>, other: Text, fs: seq<Entry>, width: nat)
    requires |kind| < U64_LIMIT && |other| < U64_LIMIT && Hashable(es, width) && Hashable(fs, width)
    requires Preimage(kind, es) == Preimage(other, fs)
    ensures kind == other && es == fs
  {
    DomainStripped(Body(kind, es), Body(other, fs));
    BodyInjective(kind, es, other, fs, width);
  }
}
