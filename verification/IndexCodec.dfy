/** The filename codec of the materialized index (`git-store/src/index.rs`): a `p`, then for every
    segment its length as eight hex digits and its bytes in hex. */
module IndexCodec {
  import opened Wrappers
  import opened Order
  import opened Names
  import opened Unicode

  const USIZE_MAX: nat := 0xffff_ffff_ffff_ffff
  const U32_LIMIT: nat := 0x1_0000_0000
  const P: byte := 'p' as int

  // ---- hex ----

  function HexChar(d: nat): byte
    requires d < 16
  {
    if d < 10 then '0' as int + d else 'a' as int + d - 10
  }

  function HexDigit(c: byte): Option<nat> {
    if '0' as int <= c <= '9' as int then Some(c - '0' as int)
    else if 'a' as int <= c <= 'f' as int then Some(c - 'a' as int + 10)
    else if 'A' as int <= c <= 'F' as int then Some(c - 'A' as int + 10)
    else None
  }

  const LOWER: Text := Ascii("0123456789abcdef")
  const UPPER: Text := Ascii("0123456789ABCDEF")

  /** The digits: small letters are written, and either are read. */
  lemma HexMeaning(d: nat, c: byte)
    requires d < 16
    ensures HexChar(d) == LOWER[d]
    ensures HexDigit(c) == Some(d) <==> c == LOWER[d] || c == UPPER[d]
    ensures HexDigit(c).Some? ==> HexDigit(c).value < 16
  {
    assert LOWER == Ascii("0123456789") + Ascii("abcdef");
    assert UPPER == Ascii("0123456789") + Ascii("ABCDEF");
  }

  function Hex(s: Text): Text {
    if s == [] then [] else [HexChar(s[0] / 16), HexChar(s[0] % 16)] + Hex(s[1..])
  }

  function Unhex(s: Text): Option<Text> {
    if s == [] then Some([])
    else if |s| == 1 then None
    else match (HexDigit(s[0]), HexDigit(s[1]), Unhex(s[2..]))
      case (Some(high), Some(low), Some(rest)) => Some([high * 16 + low] + rest)
      case _ => None
  }

  /** `n` in `width` hex digits, as `{:08x}` writes a `u32` in eight. */
  function HexFixed(n: nat, width: nat): Text {
    if width == 0 then [] else HexFixed(n / 16, width - 1) + [HexChar(n % 16)]
  }

  function ParseHexFrom(value: nat, s: Text): Option<nat>
    decreases |s|
  {
    if s == [] then Some(value)
    else match HexDigit(s[0])
      case None => None
      case Some(d) => if value * 16 + d > USIZE_MAX then None else ParseHexFrom(value * 16 + d, s[1..])
  }

  // ---- the path codec ----

  /** A path `encode_path` accepts: valid text segments, each short enough for a `u32` length. */
  predicate Indexable(p: Path) {
    ValidPath(p) && forall i :: 0 <= i < |p| ==> |p[i]| < U32_LIMIT && Utf8(p[i])
  }

  function Frames(p: Path): Text {
    if p == [] then [] else HexFixed(|p[0]|, 8) + Hex(p[0]) + Frames(p[1..])
  }

  function Encoded(p: Path): Text { [P] + Frames(p) }

  function Unframe(s: Text): Option<Path> {
    if s == [] then Some([])
    else if |s| < 8 then None
    else match ParseHexFrom(0, s[..8])
      case None => None
      case Some(length) =>
        if 8 + length * 2 > |s| then None
        else match Unhex(s[8..8 + length * 2])
          case None => None
          case Some(segment) =>
            if !Utf8(segment) then None
            else match Unframe(s[8 + length * 2..])
              case None => None
              case Some(rest) => Some([segment] + rest)
  }

  function Decoded(s: Text): Option<Path> {
    if s == [] || s[0] != P then None
    else match Unframe(s[1..])
      case None => None
      case Some(segments) =>
        if segments == [] then None
        else match NewPath(Join(segments))
          case Ok(p) => Some(p)
          case Err(_) => None
  }

  method EncodeHex(bytes: Text) returns (out: Text)
    ensures out == Hex(bytes)
  {
    out := [];
    for i := 0 to |bytes|
      invariant out + Hex(bytes[i..]) == Hex(bytes)
    {
      assert bytes[i..][0] == bytes[i] && bytes[i..][1..] == bytes[i + 1..];
      out := out + [HexChar(bytes[i] / 16)] + [HexChar(bytes[i] % 16)];
    }
  }

  method EncodePath(path: Path) returns (encoded: Text)
    requires Indexable(path)
    ensures encoded == Encoded(path)
  {
    encoded := [P];
    for i := 0 to |path|
      invariant encoded + Frames(path[i..]) == Encoded(path)
    {
      assert path[i..][1..] == path[i + 1..] && path[i..][0] == path[i];
      encoded := encoded + HexFixed(|path[i]|, 8);
      var hex := EncodeHex(path[i]);
      encoded := encoded + hex;
    }
  }

  predicate HexDigits(s: Text) { forall i :: 0 <= i < |s| ==> HexDigit(s[i]).Some? }

  function Power16(k: nat): (n: nat)
    ensures n >= 1
  {
    if k == 0 then 1 else 16 * Power16(k - 1)
  }

  /** What hex digits stand for, each at the power of its place. */
  function Base16(s: Text): nat
    requires HexDigits(s)
  {
    if s == [] then 0
    else
      assert HexDigits(s[1..]);
      HexDigit(s[0]).value * Power16(|s| - 1) + Base16(s[1..])
  }

  /** The value `s` stands for after `value`, if it is hex and fits. */
  ghost function Within(value: nat, s: Text): Option<nat> {
    if HexDigits(s) && value * Power16(|s|) + Base16(s) <= USIZE_MAX then Some(value * Power16(|s|) + Base16(s))
    else None
  }

  lemma AtLeast(x: nat, p: nat)
    requires p >= 1
    ensures x * p >= x
  {
    assert x * p == x * (p - 1) + x;
  }

  lemma HornerStep(value: nat, d: nat, p: nat, rest: nat)
    requires p >= 1
    ensures value * (16 * p) + (d * p + rest) == (value * 16 + d) * p + rest
    ensures (value * 16 + d) * p + rest >= value * 16 + d
  {
    assert value * (16 * p) == (value * 16) * p;
    assert (value * 16 + d) * p == (value * 16) * p + d * p;
    AtLeast(value * 16 + d, p);
  }

  lemma HexTail(s: Text)
    requires s != []
    ensures HexDigits(s) <==> HexDigit(s[0]).Some? && HexDigits(s[1..])
  {
    if HexDigit(s[0]).Some? && HexDigits(s[1..]) {
      forall i | 0 <= i < |s| ensures HexDigit(s[i]).Some? {
        if i > 0 { assert s[i] == s[1..][i - 1]; }
      }
    }
  }

  /** Checking at every digit refuses exactly what is not hex or does not fit. */
  lemma {:induction false} ParseHexMeaning(value: nat, s: Text)
    requires value <= USIZE_MAX
    ensures ParseHexFrom(value, s) == Within(value, s)
    decreases |s|
  {
    if s != [] {
      HexTail(s);
      if HexDigit(s[0]).Some? {
        var next := value * 16 + HexDigit(s[0]).value;
        if HexDigits(s) {
          HornerStep(value, HexDigit(s[0]).value, Power16(|s| - 1), Base16(s[1..]));
          assert Power16(|s|) == 16 * Power16(|s| - 1);
        }
        if next <= USIZE_MAX { ParseHexMeaning(next, s[1..]); }
      }
    }
  }

  /** The number the digits stand for, exactly when all are hex digits and it fits in 64 bits. */
  method ParseHex(bytes: Text) returns (r: Option<nat>)
    ensures r == if HexDigits(bytes) && Base16(bytes) <= USIZE_MAX then Some(Base16(bytes)) else None
    ensures r == ParseHexFrom(0, bytes)
  {
    ParseHexMeaning(0, bytes);
    var value: nat := 0;
    for i := 0 to |bytes|
      invariant ParseHexFrom(value, bytes[i..]) == ParseHexFrom(0, bytes)
    {
      assert bytes[i..][1..] == bytes[i + 1..];
      if value * 16 > USIZE_MAX { return None; }
      var digit := HexDigit(bytes[i]);
      if digit == None || value * 16 + digit.value > USIZE_MAX { return None; }
      value := value * 16 + digit.value;
    }
    return Some(value);
  }

  /** The cursor loop: on any bytes it stays in bounds, ends, and computes `Decoded`. */
  method DecodePath(bytes: Text) returns (r: Option<Path>)
    ensures r == Decoded(bytes)
  {
    if bytes == [] || bytes[0] != P { return None; }
    var cursor := 1;
    var segments: Path := [];
    if Unframe(bytes[1..]).Some? { assert segments + Unframe(bytes[1..]).value == Unframe(bytes[1..]).value; }
    while cursor < |bytes|
      invariant 1 <= cursor <= |bytes|
      invariant Unframe(bytes[1..]) == match Unframe(bytes[cursor..])
                                       case None => None
                                       case Some(rest) => Some(segments + rest)
    {
      ghost var rest := bytes[cursor..];
      var headerEnd := cursor + 8;
      if headerEnd > |bytes| { return None; }
      assert rest[..8] == bytes[cursor..headerEnd];
      var length := ParseHex(bytes[cursor..headerEnd]);
      if length == None { return None; }
      cursor := headerEnd;
      var end := cursor + length.value * 2;
      if end > |bytes| { return None; }
      assert rest[8..8 + length.value * 2] == bytes[cursor..end];
      assert rest[8 + length.value * 2..] == bytes[end..];
      var decoded := Unhex(bytes[cursor..end]);
      if decoded == None || !Utf8(decoded.value) { return None; }
      assert forall t :: segments + ([decoded.value] + t) == (segments + [decoded.value]) + t;
      segments := segments + [decoded.value];
      cursor := end;
    }
    assert segments + [] == segments;
    if segments == [] { return None; }
    match NewPath(Join(segments))
    case Ok(p) => return Some(p);
    case Err(_) => return None;
  }

  // ---- round trip ----

  lemma {:induction false} HexLength(s: Text)
    ensures |Hex(s)| == 2 * |s|
  {
    if s != [] { HexLength(s[1..]); }
  }

  lemma {:induction false} UnhexHex(s: Text)
    ensures Unhex(Hex(s)) == Some(s)
  {
    if s != [] {
      UnhexHex(s[1..]);
      assert Hex(s)[2..] == Hex(s[1..]);
      assert s == [s[0]] + s[1..];
    }
  }

  lemma {:induction false} ParseSnoc(value: nat, s: Text, d: nat)
    requires d < 16 && ParseHexFrom(value, s).Some? && ParseHexFrom(value, s).value * 16 + d <= USIZE_MAX
    ensures ParseHexFrom(value, s + [HexChar(d)]) == Some(ParseHexFrom(value, s).value * 16 + d)
    decreases |s|
  {
    if s == [] {
      assert s + [HexChar(d)] == [HexChar(d)];
    } else {
      assert (s + [HexChar(d)])[1..] == s[1..] + [HexChar(d)];
      ParseSnoc(value * 16 + HexDigit(s[0]).value, s[1..], d);
    }
  }

  lemma {:induction false} ParseHexFixed(n: nat, width: nat)
    requires n < Power16(width) && n <= USIZE_MAX
    ensures |HexFixed(n, width)| == width && ParseHexFrom(0, HexFixed(n, width)) == Some(n)
  {
    if width > 0 {
      ParseHexFixed(n / 16, width - 1);
      ParseSnoc(0, HexFixed(n / 16, width - 1), n % 16);
    }
  }

  lemma HeaderRoundTrip(n: nat)
    requires n < U32_LIMIT
    ensures |HexFixed(n, 8)| == 8 && ParseHexFrom(0, HexFixed(n, 8)) == Some(n)
  {
    assert Power16(4) == 0x1_0000;
    assert Power16(8) == U32_LIMIT;
    ParseHexFixed(n, 8);
  }

  lemma UnframeOne(segment: Text, tail: Text)
    requires |segment| < U32_LIMIT && Utf8(segment)
    ensures Unframe(HexFixed(|segment|, 8) + Hex(segment) + tail) ==
            match Unframe(tail) case None => None case Some(rest) => Some([segment] + rest)
  {
    var header, body := HexFixed(|segment|, 8), Hex(segment);
    HeaderRoundTrip(|segment|);
    HexLength(segment);
    UnhexHex(segment);
    var s := header + body + tail;
    assert s[..8] == header;
    assert s[8..8 + |segment| * 2] == body;
    assert s[8 + |segment| * 2..] == tail;
  }

  lemma {:induction false} UnframeFrames(p: Path)
    requires forall i :: 0 <= i < |p| ==> |p[i]| < U32_LIMIT && Utf8(p[i])
    ensures Unframe(Frames(p)) == Some(p)
  {
    if p != [] {
      UnframeFrames(p[1..]);
      UnframeOne(p[0], Frames(p[1..]));
      assert p == [p[0]] + p[1..];
    }
  }

  /** Every indexable path survives encoding. */
  lemma DecodeEncoded(p: Path)
    requires Indexable(p)
    ensures Decoded(Encoded(p)) == Some(p)
  {
    UnframeFrames(p);
    assert Encoded(p)[1..] == Frames(p);
    ParseDisplay(p);
  }

  lemma EncodedInjective(p: Path, q: Path)
    requires Indexable(p) && Indexable(q) && Encoded(p) == Encoded(q)
    ensures p == q
  {
    DecodeEncoded(p);
    DecodeEncoded(q);
  }

  /** Whatever bytes it is given, a decoded path is a valid one. */
  lemma DecodedValid(s: Text)
    requires Decoded(s).Some?
    ensures ValidPath(Decoded(s).value)
  {
    DisplayParse(Join(Unframe(s[1..]).value));
  }
}
