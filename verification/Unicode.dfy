/** UTF-8 as the standard library reads it: what `String::from_utf8` accepts, and what
    `String::from_utf8_lossy` makes of the rest. */
module Unicode {
  import opened Order

  const REPLACEMENT: Text := [0xef, 0xbf, 0xbd]

  predicate Continuation(c: byte) { 0x80 <= c < 0xc0 }

  /** The second byte of a scalar of three or four bytes. */
  predicate Second(first: byte, c: byte) {
    && Continuation(c)
    && (first == 0xe0 ==> c >= 0xa0) && (first == 0xed ==> c < 0xa0)
    && (first == 0xf0 ==> c >= 0x90) && (first == 0xf4 ==> c < 0x90)
  }

  /** The length of the scalar `s` begins with, or zero when it begins with none. */
  function ScalarLength(s: Text): (n: nat)
    requires s != []
    ensures n <= |s|
  {
    if s[0] < 0x80 then 1
    else if |s| >= 2 && 0xc2 <= s[0] <= 0xdf && Continuation(s[1]) then 2
    else if |s| >= 3 && 0xe0 <= s[0] <= 0xef && Second(s[0], s[1]) && Continuation(s[2]) then 3
    else if |s| >= 4 && 0xf0 <= s[0] <= 0xf4 && Second(s[0], s[1]) && Continuation(s[2]) && Continuation(s[3]) then 4
    else 0
  }

  /** A Unicode scalar value: any code point but the surrogates. */
  predicate Scalar(c: nat) { c < 0xd800 || 0xe000 <= c < 0x11_0000 }

  /** The UTF-8 form of a scalar value, as section 3 of RFC 3629 lays it out. */
  function Encode(c: nat): Text
    requires Scalar(c)
  {
    if c < 0x80 then [c]
    else if c < 0x800 then [0xc0 + c / 0x40, 0x80 + c % 0x40]
    else if c < 0x1_0000 then [0xe0 + c / 0x1000, 0x80 + c / 0x40 % 0x40, 0x80 + c % 0x40]
    else [0xf0 + c / 0x4_0000, 0x80 + c / 0x1000 % 0x40, 0x80 + c / 0x40 % 0x40, 0x80 + c % 0x40]
  }

  lemma Places(w: nat, x: nat, y: nat, z: nat)
    requires x < 0x40 && y < 0x40 && z < 0x40
    ensures var c := w * 0x4_0000 + x * 0x1000 + y * 0x40 + z;
      && c % 0x40 == z && c / 0x40 == w * 0x1000 + x * 0x40 + y && c / 0x40 % 0x40 == y
      && c / 0x1000 == w * 0x40 + x && c / 0x1000 % 0x40 == x && c / 0x4_0000 == w
  {
  }

  /** The scalar value the first bytes of `s` stand for. */
  function Decode(s: Text): nat
    requires s != [] && ScalarLength(s) > 0
  {
    var n := ScalarLength(s);
    if n == 1 then s[0]
    else if n == 2 then (s[0] as int - 0xc0) * 0x40 + (s[1] as int - 0x80)
    else if n == 3 then (s[0] as int - 0xe0) * 0x1000 + (s[1] as int - 0x80) * 0x40 + (s[2] as int - 0x80)
    else
      (s[0] as int - 0xf0) * 0x4_0000 + (s[1] as int - 0x80) * 0x1000 +
      (s[2] as int - 0x80) * 0x40 + (s[3] as int - 0x80)
  }

  lemma DecodedThree(s: Text)
    requires s != [] && ScalarLength(s) == 3
    ensures Scalar(Decode(s)) && Encode(Decode(s)) == s[..3]
  {
    Places(0, s[0] as int - 0xe0, s[1] as int - 0x80, s[2] as int - 0x80);
  }

  lemma DecodedFour(s: Text)
    requires s != [] && ScalarLength(s) == 4
    ensures Scalar(Decode(s)) && Encode(Decode(s)) == s[..4]
  {
    Places(s[0] as int - 0xf0, s[1] as int - 0x80, s[2] as int - 0x80, s[3] as int - 0x80);
  }

  lemma DecodedAlone(s: Text)
    requires s != [] && 0 < ScalarLength(s) <= 2
    ensures Scalar(Decode(s)) && Encode(Decode(s)) == s[..ScalarLength(s)]
  {
  }

  lemma Decoded(s: Text)
    requires s != [] && ScalarLength(s) > 0
    ensures Scalar(Decode(s)) && Encode(Decode(s)) == s[..ScalarLength(s)]
  {
    hide Encode, Decode;
    if ScalarLength(s) <= 2 { DecodedAlone(s); }
    if ScalarLength(s) == 3 { DecodedThree(s); }
    if ScalarLength(s) == 4 { DecodedFour(s); }
  }

  lemma Sixes(c: nat)
    ensures c == c / 0x40 * 0x40 + c % 0x40
    ensures c == c / 0x1000 * 0x1000 + c / 0x40 % 0x40 * 0x40 + c % 0x40
    ensures c == c / 0x4_0000 * 0x4_0000 + c / 0x1000 % 0x40 * 0x1000 + c / 0x40 % 0x40 * 0x40 + c % 0x40
  {
    assert c / 0x40 / 0x40 == c / 0x1000 && c / 0x1000 / 0x40 == c / 0x4_0000;
  }

  lemma EncodedAlone(c: nat)
    requires Scalar(c)
    ensures Encode(c) != [] && ScalarLength(Encode(c)) == |Encode(c)| && Decode(Encode(c)) == c
  {
    Sixes(c);
  }

  lemma ScalarStable(a: Text, b: Text)
    requires a != [] && ScalarLength(a) > 0 && ScalarLength(a) <= |b| && b[..ScalarLength(a)] == a[..ScalarLength(a)]
    ensures ScalarLength(b) == ScalarLength(a) && Decode(b) == Decode(a)
  {
    var n := ScalarLength(a);
    assert forall i :: 0 <= i < n ==> b[i] == b[..n][i] == a[..n][i] == a[i];
    hide Encode;
  }

  /** A text begins with a scalar exactly when it begins with the UTF-8 form of some scalar value, of which
      there is then only one. */
  lemma ScalarMeaning(s: Text, c: nat)
    requires s != [] && Scalar(c)
    ensures Encode(c) <= s <==> ScalarLength(s) > 0 && Decode(s) == c
    ensures Encode(c) <= s ==> ScalarLength(s) == |Encode(c)|
  {
    hide ScalarLength, Encode, Decode;
    if Encode(c) <= s {
      EncodedAlone(c);
      ScalarStable(Encode(c), s);
    }
    if ScalarLength(s) > 0 { Decoded(s); }
  }

  predicate Utf8(s: Text) {
    s == [] || (ScalarLength(s) > 0 && Utf8(s[ScalarLength(s)..]))
  }

  /** How much of `s`, which begins with no scalar, one replacement stands for: as far as a scalar could have
      begun. */
  function BadLength(s: Text): (n: nat)
    requires s != [] && ScalarLength(s) == 0
    ensures 1 <= n <= |s|
  {
    if |s| < 2 || !(0xe0 <= s[0] <= 0xf4) || !Second(s[0], s[1]) then 1
    else if |s| < 3 || s[0] <= 0xef || !Continuation(s[2]) then 2
    else 3
  }

  /** One replacement stands for the longest stretch a scalar could still have begun with, or for one byte. */
  lemma BadMeaning(s: Text, m: nat, c: nat)
    requires s != [] && ScalarLength(s) == 0
    ensures BadLength(s) > 1 ==> exists d :: Scalar(d) && s[..BadLength(s)] <= Encode(d)
    ensures BadLength(s) < m <= |s| && Scalar(c) ==> !(s[..m] <= Encode(c))
  {
    if BadLength(s) > 1 { BegunScalar(s); }
    if BadLength(s) < m <= |s| && Scalar(c) && s[..m] <= Encode(c) {
      EncodedAlone(c);
      AllBegun(s, m, Encode(c));
    }
  }

  lemma BegunScalar(s: Text)
    requires s != [] && ScalarLength(s) == 0 && BadLength(s) > 1
    ensures exists d :: Scalar(d) && s[..BadLength(s)] <= Encode(d)
  {
    hide Encode, Decode;
    var t := s[..BadLength(s)] + [0x80];
    if ScalarLength(t) == 0 { t := t + [0x80]; }
    Decoded(t);
    assert t[..ScalarLength(t)] == t;
    assert Scalar(Decode(t)) && s[..BadLength(s)] <= Encode(Decode(t));
  }

  /** No longer stretch begins a scalar `t`. */
  lemma AllBegun(s: Text, m: nat, t: Text)
    requires s != [] && ScalarLength(s) == 0 && t != [] && ScalarLength(t) == |t| && m <= |s| && s[..m] <= t
    ensures m <= BadLength(s)
  {
    assert forall i :: 0 <= i < m ==> t[i] == s[..m][i] == s[i];
    if m == |t| {
      assert s[..m] == t;
      assert forall i :: 0 <= i < |t| ==> s[i] == t[i];
    }
  }

  /** `String::from_utf8_lossy`. */
  function Lossy(s: Text): Text
    decreases |s|
  {
    if s == [] then []
    else
      var n := ScalarLength(s);
      if n > 0 then s[..n] + Lossy(s[n..]) else REPLACEMENT + Lossy(s[BadLength(s)..])
  }

  /** Text that is UTF-8 is left as it is. */
  lemma {:induction false} LossyKeeps(s: Text)
    requires Utf8(s)
    ensures Lossy(s) == s
    decreases |s|
  {
    if s != [] {
      LossyKeeps(s[ScalarLength(s)..]);
      assert s == s[..ScalarLength(s)] + s[ScalarLength(s)..];
    }
  }

  predicate IsAsciiText(s: Text) { forall i :: 0 <= i < |s| ==> s[i] < 0x80 }

  lemma {:induction false} AsciiUtf8(s: Text)
    requires IsAsciiText(s)
    ensures Utf8(s)
  {
    if s != [] { AsciiUtf8(s[1..]); }
  }

  lemma {:induction false} LossyAsciiBack(s: Text)
    requires IsAsciiText(Lossy(s))
    ensures Lossy(s) == s
    decreases |s|
  {
    if s != [] {
      assert Lossy(s)[0] < 0x80;
      assert Lossy(s)[1..] == Lossy(s[1..]);
      LossyAsciiBack(s[1..]);
    }
  }

  /** Nothing but an ASCII text decodes to it, so looking for one by lossy name finds what looking by bytes
      finds. */
  lemma LossyFinds(s: Text, ascii: Text)
    requires IsAsciiText(ascii)
    ensures Lossy(s) == ascii <==> s == ascii
  {
    if Lossy(s) == ascii { LossyAsciiBack(s); }
    AsciiUtf8(ascii);
    LossyKeeps(ascii);
  }
}
