/** Canonical commits: bytes that are a function of the declared fields alone, and determine them
    (`git-store/src/canonical.rs`). */
module Canonical {
  import opened Wrappers
  import opened Order
  import opened IndexCodec
  import Messages

  const NEWLINE: byte := '\n' as int
  const SPACE: byte := ' ' as int
  const OPEN: byte := '<' as int
  const CLOSE: byte := '>' as int
  const MINUS: byte := '-' as int
  const PLUS: byte := '+' as int

  datatype Signature = Signature(name: Text, email: Text, seconds: int, offset: int)

  /** Object ids are byte strings here, written in hex. */
  datatype CanonicalCommit = CanonicalCommit(tree: Text, parents: seq<Text>, author: Signature,
                                             committer: Signature, message: Text)

  // ---- numbers ----

  function Digit(d: nat): byte
    requires d < 10
  {
    '0' as int + d
  }

  function Decimal(n: nat): Text { if n < 10 then [Digit(n)] else Decimal(n / 10) + [Digit(n % 10)] }

  function Integer(n: int): Text { if n < 0 then [MINUS] + Decimal(-n) else Decimal(n) }

  /** At least two digits. */
  function TwoDigits(n: nat): Text { if n < 10 then [Digit(0), Digit(n)] else Decimal(n) }

  function Magnitude(offset: int): nat { if offset < 0 then -offset else offset }

  function GitOffset(offset: int): Text {
    var abs := Magnitude(offset);
    [if offset < 0 then MINUS else PLUS] + TwoDigits(abs / 3600) + TwoDigits(abs % 3600 / 60)
  }

  // ---- bytes ----

  function Line(tag: Text, rest: Text): Text { tag + [SPACE] + rest + [NEWLINE] }

  function Identity(s: Signature): Text {
    s.name + [SPACE] + [OPEN] + s.email + [CLOSE] + [SPACE] + Integer(s.seconds) + [SPACE] + GitOffset(s.offset)
  }

  function ParentLines(tag: Text, parents: seq<Text>): Text {
    if parents == [] then [] else Line(tag, Hex(parents[0])) + ParentLines(tag, parents[1..])
  }

  datatype Labels = Labels(tree: Text, parent: Text, author: Text, committer: Text)

  const GIT: Labels := Labels(Ascii("tree"), Ascii("parent"), Ascii("author"), Ascii("committer"))

  function Framed(l: Labels, c: CanonicalCommit): Text {
    Line(l.tree, Hex(c.tree)) + (ParentLines(l.parent, c.parents) +
      (Line(l.author, Identity(c.author)) + (Line(l.committer, Identity(c.committer)) + ([NEWLINE] + c.message))))
  }

  function RawBytes(c: CanonicalCommit): Text { Framed(GIT, c) }

  lemma LabelsSpelled()
    ensures GIT.tree + [SPACE] == Ascii("tree ") && GIT.parent + [SPACE] == Ascii("parent ")
    ensures GIT.author + [SPACE] == Ascii("author ") && GIT.committer + [SPACE] == Ascii("committer ")
  {
  }

  /** The bytes of a commit with one parent or none, spelled out. */
  lemma BytesSpelled(c: CanonicalCommit)
    ensures var tree, author := Ascii("tree ") + Hex(c.tree), Ascii("author ") + Identity(c.author);
      var rest := author + [10] + Ascii("committer ") + Identity(c.committer) + [10, 10] + c.message;
      && (c.parents == [] ==> RawBytes(c) == tree + [10] + rest)
      && (|c.parents| == 1 ==> RawBytes(c) == tree + [10] + Ascii("parent ") + Hex(c.parents[0]) + [10] + rest)
  {
    LabelsSpelled();
    hide Ascii, Hex, Identity;
    if |c.parents| == 1 {
      assert c.parents[1..] == [] && ParentLines(GIT.parent, []) == [];
      assert ParentLines(GIT.parent, c.parents) == Line(GIT.parent, Hex(c.parents[0]));
    }
  }

  /** `raw_bytes`, appended line by line. */
  method Write(l: Labels, c: CanonicalCommit) returns (out: Text)
    ensures out == Framed(l, c)
  {
    out := Line(l.tree, Hex(c.tree));
    ghost var head := out;
    for i := 0 to |c.parents|
      invariant out + ParentLines(l.parent, c.parents[i..]) == head + ParentLines(l.parent, c.parents)
    {
      assert c.parents[i..][0] == c.parents[i] && c.parents[i..][1..] == c.parents[i + 1..];
      Assoc(out, Line(l.parent, Hex(c.parents[i])), ParentLines(l.parent, c.parents[i + 1..]));
      out := out + Line(l.parent, Hex(c.parents[i]));
    }
    assert out + [] == out;
    ghost var parents := ParentLines(l.parent, c.parents);
    ghost var author, committer := Line(l.author, Identity(c.author)), Line(l.committer, Identity(c.committer));
    out := out + Line(l.author, Identity(c.author));
    out := out + Line(l.committer, Identity(c.committer));
    out := out + [NEWLINE];
    out := out + c.message;
    Assoc(head + parents + author + committer, [NEWLINE], c.message);
    Assoc(head + parents + author, committer, [NEWLINE] + c.message);
    Assoc(head + parents, author, committer + ([NEWLINE] + c.message));
    Assoc(head, parents, author + (committer + ([NEWLINE] + c.message)));
  }

  // ---- reading numbers back ----

  predicate IsDigit(b: byte) { '0' as int <= b <= '9' as int }

  lemma {:induction false} DecimalDigits(n: nat)
    ensures Decimal(n) != [] && forall i :: 0 <= i < |Decimal(n)| ==> IsDigit(Decimal(n)[i])
  {
    if n >= 10 { DecimalDigits(n / 10); }
  }

  lemma {:induction false} DecimalInjective(m: nat, n: nat)
    requires Decimal(m) == Decimal(n)
    ensures m == n
  {
    DecimalDigits(m / 10);
    DecimalDigits(n / 10);
    var a, b := Decimal(m), Decimal(n);
    assert a[|a| - 1] == Digit(m % 10) && b[|b| - 1] == Digit(n % 10);
    if m >= 10 && n >= 10 {
      assert a[..|a| - 1] == Decimal(m / 10) && b[..|b| - 1] == Decimal(n / 10);
      DecimalInjective(m / 10, n / 10);
    }
  }

  lemma IntegerInjective(m: int, n: int)
    requires Integer(m) == Integer(n)
    ensures m == n
  {
    DecimalDigits(if m < 0 then -m else m);
    DecimalDigits(if n < 0 then -n else n);
    assert forall i: int {:trigger Integer(i)} :: i < 0 ==> Integer(i)[0] == MINUS;
    if m < 0 && n < 0 {
      assert Integer(m)[1..] == Decimal(-m) && Integer(n)[1..] == Decimal(-n);
      DecimalInjective(-m, -n);
    } else if m >= 0 && n >= 0 {
      DecimalInjective(m, n);
    }
  }

  lemma TwoDigitsInjective(m: nat, n: nat)
    requires TwoDigits(m) == TwoDigits(n)
    ensures m == n
  {
    if m >= 10 { LeadingDigit(m); }
    if n >= 10 { LeadingDigit(n); }
    if m >= 10 && n >= 10 { DecimalInjective(m, n); }
  }

  lemma {:induction false} LeadingDigit(n: nat)
    requires n > 0
    ensures Decimal(n) != [] && Decimal(n)[0] != Digit(0)
  {
    if n >= 10 { LeadingDigit(n / 10); }
  }

  lemma MinuteDigits(n: nat)
    requires n < 60
    ensures |TwoDigits(n)| == 2
  {
    if n >= 10 { assert Decimal(n) == [Digit(n / 10)] + [Digit(n % 10)]; }
  }

  /** What decimal digits stand for. */
  function Base10(t: Text): int { if t == [] then 0 else Base10(t[..|t| - 1]) * 10 + (t[|t| - 1] - '0' as int) }

  lemma {:induction false} DecimalValue(n: nat)
    ensures Base10(Decimal(n)) == n
  {
    if n >= 10 {
      DecimalValue(n / 10);
      assert Decimal(n)[..|Decimal(n)| - 1] == Decimal(n / 10);
    } else {
      assert Base10([]) == 0 && Decimal(n)[..0] == [];
    }
  }

  /** A number is its digits, after a minus sign exactly when it is negative, and no digit leads in vain. */
  lemma IntegerMeaning(n: int)
    ensures var t := Integer(n);
      && t != [] && (t[0] == '-' as int <==> n < 0)
      && var digits := if n < 0 then t[1..] else t;
      && digits != [] && (forall i :: 0 <= i < |digits| ==> IsDigit(digits[i]))
      && Base10(digits) == (if n < 0 then -n else n)
      && (|digits| > 1 ==> digits[0] != '0' as int)
  {
    var abs := if n < 0 then -n else n;
    DecimalDigits(abs);
    DecimalValue(abs);
    if abs > 0 { LeadingDigit(abs); }
    assert n < 0 ==> Integer(n)[1..] == Decimal(abs);
  }

  lemma TwoDigitsValue(n: nat)
    ensures |TwoDigits(n)| >= 2 && (forall i :: 0 <= i < |TwoDigits(n)| ==> IsDigit(TwoDigits(n)[i]))
    ensures Base10(TwoDigits(n)) == n
  {
    DecimalDigits(n);
    DecimalValue(n);
    if n < 10 {
      var t := TwoDigits(n);
      assert t[..1] == [Digit(0)] && t[..1][..0] == [] && Base10(t[..1]) == 0;
    } else {
      DecimalDigits(n / 10);
    }
  }

  /** An offset is written as Git reads it: the sign, hours in at least two digits, minutes in exactly two. */
  lemma OffsetMeaning(offset: int)
    ensures var t := GitOffset(offset);
      && |t| >= 5 && t[0] == (if offset < 0 then '-' as int else '+' as int)
      && (forall i :: 0 < i < |t| ==> IsDigit(t[i]))
      && Base10(t[1..|t| - 2]) == Magnitude(offset) / 3600
      && Base10(t[|t| - 2..]) == Magnitude(offset) / 60 % 60
  {
    var abs, t := Magnitude(offset), GitOffset(offset);
    MinutesSplit(abs);
    MinuteDigits(abs % 3600 / 60);
    TwoDigitsValue(abs / 3600);
    TwoDigitsValue(abs % 3600 / 60);
    assert t[1..|t| - 2] == TwoDigits(abs / 3600) && t[|t| - 2..] == TwoDigits(abs % 3600 / 60);
  }

  predicate SameOffset(a: int, b: int) { (a < 0 <==> b < 0) && Magnitude(a) / 60 == Magnitude(b) / 60 }

  lemma MinutesSplit(a: nat)
    ensures a / 60 == a / 3600 * 60 + a % 3600 / 60 && a % 3600 / 60 < 60
  {
  }

  /** Two offsets are written alike exactly when they agree in sign and in whole minutes, however many
      hours they have. */
  lemma OffsetDetermines(a: int, b: int)
    ensures GitOffset(a) == GitOffset(b) <==> SameOffset(a, b)
  {
    var x, y := Magnitude(a), Magnitude(b);
    MinutesSplit(x);
    MinutesSplit(y);
    MinuteDigits(x % 3600 / 60);
    MinuteDigits(y % 3600 / 60);
    if GitOffset(a) == GitOffset(b) {
      var s, t := GitOffset(a), GitOffset(b);
      assert s[0] == t[0];
      assert s[1..|s| - 2] == TwoDigits(x / 3600) && t[1..|t| - 2] == TwoDigits(y / 3600);
      assert s[|s| - 2..] == TwoDigits(x % 3600 / 60) && t[|t| - 2..] == TwoDigits(y % 3600 / 60);
      TwoDigitsInjective(x / 3600, y / 3600);
      TwoDigitsInjective(x % 3600 / 60, y % 3600 / 60);
    }
  }

  // ---- reading lines back ----

  /** The first `d` ends the first part. */
  lemma {:induction false} Delimited(a: Text, x: Text, b: Text, y: Text, d: byte)
    requires d !in a && d !in b && a + ([d] + x) == b + ([d] + y)
    ensures a == b && x == y
  {
    var s, t := a + ([d] + x), b + ([d] + y);
    assert s[|a|] == d && t[|b|] == d;
    assert s[..|a|] == a && t[..|b|] == b;
    assert s[|a| + 1..] == x && t[|b| + 1..] == y;
  }

  lemma PrefixCancels(p: Text, x: Text, y: Text)
    requires p + x == p + y
    ensures x == y
  {
    assert (p + x)[|p|..] == x && (p + y)[|p|..] == y;
  }

  lemma LineInjective(tag: Text, a: Text, x: Text, b: Text, y: Text)
    requires NEWLINE !in a && NEWLINE !in b && Line(tag, a) + x == Line(tag, b) + y
    ensures a == b && x == y
  {
    assert Line(tag, a) + x == (tag + [SPACE]) + (a + ([NEWLINE] + x));
    assert Line(tag, b) + y == (tag + [SPACE]) + (b + ([NEWLINE] + y));
    PrefixCancels(tag + [SPACE], a + ([NEWLINE] + x), b + ([NEWLINE] + y));
    Delimited(a, x, b, y, NEWLINE);
  }

  lemma {:induction false} HexClean(s: Text)
    ensures NEWLINE !in Hex(s)
  {
    if s != [] { HexClean(s[1..]); }
  }

  lemma HexInjective(a: Text, b: Text)
    requires Hex(a) == Hex(b)
    ensures a == b
  {
    UnhexHex(a);
    UnhexHex(b);
  }

  predicate OneLine(s: Signature) { NEWLINE !in s.name && NEWLINE !in s.email }

  lemma IntegerClean(n: int)
    ensures NEWLINE !in Integer(n) && SPACE !in Integer(n) && CLOSE !in Integer(n)
  {
    DecimalDigits(if n < 0 then -n else n);
  }

  lemma OffsetClean(n: int)
    ensures NEWLINE !in GitOffset(n) && CLOSE !in GitOffset(n)
  {
    DecimalDigits(Magnitude(n) / 3600);
    DecimalDigits(Magnitude(n) % 3600 / 60);
    var a, b := TwoDigits(Magnitude(n) / 3600), TwoDigits(Magnitude(n) % 3600 / 60);
    assert NEWLINE !in a && NEWLINE !in b && CLOSE !in a && CLOSE !in b;
  }

  lemma IdentityClean(s: Signature)
    requires OneLine(s)
    ensures NEWLINE !in Identity(s)
  {
    IntegerClean(s.seconds);
    OffsetClean(s.offset);
  }

  predicate SameIdentity(a: Signature, b: Signature) {
    a.name == b.name && a.email == b.email && a.seconds == b.seconds && SameOffset(a.offset, b.offset)
  }

  function Stamp(s: Signature): Text { Integer(s.seconds) + ([SPACE] + GitOffset(s.offset)) }

  const BRACKET: Text := [SPACE, OPEN]

  /** What stands before the bracket that ends the email. */
  function Head(s: Signature): Text { s.name + (BRACKET + s.email) }

  lemma IdentityParts(s: Signature)
    ensures Identity(s) == Head(s) + ([CLOSE] + ([SPACE] + Stamp(s)))
  {
    assert BRACKET == [SPACE] + [OPEN];
  }

  lemma StampDetermines(a: Signature, b: Signature)
    requires Stamp(a) == Stamp(b)
    ensures a.seconds == b.seconds && GitOffset(a.offset) == GitOffset(b.offset)
  {
    IntegerClean(a.seconds);
    IntegerClean(b.seconds);
    Delimited(Integer(a.seconds), GitOffset(a.offset), Integer(b.seconds), GitOffset(b.offset), SPACE);
    IntegerInjective(a.seconds, b.seconds);
  }

  /** The last `d` ends the first part. */
  lemma {:induction false} LastDelimited(a: Text, x: Text, b: Text, y: Text, d: byte)
    requires d !in x && d !in y && a + ([d] + x) == b + ([d] + y)
    ensures a == b && x == y
  {
    var s, t := a + ([d] + x), b + ([d] + y);
    assert s[|a|] == d && t[|b|] == d;
    assert s[|a| + 1..] == x && t[|b| + 1..] == y;
    assert forall i :: |a| < i < |s| ==> s[i] == x[i - |a| - 1];
    assert forall i :: |b| < i < |t| ==> t[i] == y[i - |b| - 1];
    assert s[..|a|] == a && t[..|b|] == b;
  }

  /** Two identities are written alike exactly when name, bracket and email together are, and the stamps
      agree: the last closing bracket ends the email. */
  lemma IdentityByHead(a: Signature, b: Signature)
    ensures Identity(a) == Identity(b) <==>
            Head(a) == Head(b) && a.seconds == b.seconds && SameOffset(a.offset, b.offset)
  {
    IdentityParts(a);
    IdentityParts(b);
    OffsetDetermines(a.offset, b.offset);
    if Identity(a) == Identity(b) {
      StampClosed(a);
      StampClosed(b);
      LastDelimited(Head(a), [SPACE] + Stamp(a), Head(b), [SPACE] + Stamp(b), CLOSE);
      PrefixCancels([SPACE], Stamp(a), Stamp(b));
      StampDetermines(a, b);
    }
  }

  lemma StampClosed(s: Signature)
    ensures CLOSE !in [SPACE] + Stamp(s)
  {
    IntegerClean(s.seconds);
    OffsetClean(s.offset);
  }

  /** An opening bracket stands at `i`, after a space. */
  predicate BracketAt(s: Text, i: int) { 0 <= i < |s| - 1 && s[i] == SPACE && s[i + 1] == OPEN }

  predicate Bracketed(s: Text) { exists i :: 0 <= i < |s| && BracketAt(s, i) }

  predicate Legible(s: Signature) { !Bracketed(s.name) && !Bracketed(s.email) }

  lemma BracketWhere(u: Text, v: Text, i: nat)
    requires BracketAt(u + (BRACKET + v), i)
    ensures i == |u| || BracketAt(u, i) || BracketAt(v, i - |u| - 2)
  {
    var h := u + (BRACKET + v);
    assert h[|u|] == SPACE && h[|u| + 1] == OPEN;
    assert forall j :: 0 <= j < |u| ==> h[j] == u[j];
    assert forall j :: |u| + 2 <= j < |h| ==> h[j] == v[j - |u| - 2];
  }

  /** The bracket between name and email is the only one, so it can be found again. */
  lemma HeadDetermines(a: Signature, b: Signature)
    requires Legible(a) && Head(a) == Head(b)
    ensures a.name == b.name && a.email == b.email
  {
    var h, m, n := Head(a), |a.name|, |b.name|;
    assert Head(b)[n] == SPACE && Head(b)[n + 1] == OPEN;
    BracketWhere(a.name, a.email, n);
    assert m == n;
    assert h[..m] == a.name && Head(b)[..m] == b.name && h[m + 2..] == a.email && Head(b)[m + 2..] == b.email;
  }

  lemma SplitAt(s: Text, i: nat)
    requires BracketAt(s, i)
    ensures s == s[..i] + (BRACKET + s[i + 2..])
  {
  }

  lemma HeadShifts(x: Text, y: Text, z: Text)
    ensures (x + (BRACKET + y)) + (BRACKET + z) == x + (BRACKET + (y + (BRACKET + z)))
  {
    Assoc(x, BRACKET + y, BRACKET + z);
    Assoc(BRACKET, y, BRACKET + z);
  }

  /** Another identity written just like this one: the bracket taken for the other one. */
  lemma Sibling(a: Signature) returns (b: Signature)
    requires !Legible(a)
    ensures Identity(a) == Identity(b) && !SameIdentity(a, b) && (OneLine(a) ==> OneLine(b))
  {
    hide Identity, SameOffset;
    if Bracketed(a.name) {
      var i :| 0 <= i < |a.name| && BracketAt(a.name, i);
      b := Signature(a.name[..i], a.name[i + 2..] + (BRACKET + a.email), a.seconds, a.offset);
      SplitAt(a.name, i);
      HeadShifts(b.name, a.name[i + 2..], a.email);
    } else {
      var i :| 0 <= i < |a.email| && BracketAt(a.email, i);
      b := Signature(a.name + (BRACKET + a.email[..i]), a.email[i + 2..], a.seconds, a.offset);
      SplitAt(a.email, i);
      HeadShifts(a.name, a.email[..i], b.email);
    }
    IdentityByHead(a, b);
    assert SameOffset(a.offset, b.offset) by { OffsetDetermines(a.offset, b.offset); }
    assert |a.name| != |b.name|;
  }

  /** Exactly when an identity can be read back: its bytes are those of no other if and only if neither its
      name nor its email holds a space and an opening bracket. Other brackets do no harm. */
  lemma IdentityExactly(a: Signature)
    ensures (forall b :: Identity(a) == Identity(b) ==> SameIdentity(a, b)) <==> Legible(a)
  {
    if Legible(a) {
      forall b | Identity(a) == Identity(b) ensures SameIdentity(a, b) { IdentityDetermines(a, b); }
    } else {
      var b := Sibling(a);
      assert Identity(a) == Identity(b) && !SameIdentity(a, b);
    }
  }

  lemma IdentityDetermines(a: Signature, b: Signature)
    requires Legible(a)
    ensures Identity(a) == Identity(b) <==> SameIdentity(a, b)
  {
    IdentityByHead(a, b);
    if Head(a) == Head(b) { HeadDetermines(a, b); }
  }

  lemma ParentsHead(tag: Text, p: seq<Text>, x: Text)
    requires tag != [] && x != []
    ensures ParentLines(tag, p) + x != [] && (ParentLines(tag, p) + x)[0] == if p == [] then x[0] else tag[0]
  {
  }

  /** Parent lines end where a line with another tag begins. */
  lemma {:induction false} ParentsInjective(tag: Text, p: seq<Text>, x: Text, q: seq<Text>, y: Text)
    requires tag != [] && x != [] && y != [] && x[0] != tag[0] && y[0] != tag[0]
    requires ParentLines(tag, p) + x == ParentLines(tag, q) + y
    ensures p == q && x == y
  {
    ParentsHead(tag, p, x);
    ParentsHead(tag, q, y);
    if p == [] && q == [] {
      assert ParentLines(tag, p) + x == x && ParentLines(tag, q) + y == y;
    } else if p != [] && q != [] {
      Assoc(Line(tag, Hex(p[0])), ParentLines(tag, p[1..]), x);
      Assoc(Line(tag, Hex(q[0])), ParentLines(tag, q[1..]), y);
      HexClean(p[0]);
      HexClean(q[0]);
      LineInjective(tag, Hex(p[0]), ParentLines(tag, p[1..]) + x, Hex(q[0]), ParentLines(tag, q[1..]) + y);
      HexInjective(p[0], q[0]);
      ParentsInjective(tag, p[1..], x, q[1..], y);
      assert p == [p[0]] + p[1..] && q == [q[0]] + q[1..];
    }
  }

  predicate SameCommit(a: CanonicalCommit, b: CanonicalCommit) {
    && a.tree == b.tree && a.parents == b.parents && a.message == b.message
    && SameIdentity(a.author, b.author) && SameIdentity(a.committer, b.committer)
  }

  predicate OneLined(c: CanonicalCommit) { OneLine(c.author) && OneLine(c.committer) }

  lemma FramedDetermines(l: Labels, a: CanonicalCommit, b: CanonicalCommit)
    requires l.parent != [] && l.author != [] && l.parent[0] != l.author[0]
    requires OneLined(a) && OneLined(b) && Legible(a.author) && Legible(a.committer)
    requires Framed(l, a) == Framed(l, b)
    ensures SameCommit(a, b)
  {
    var c, d := Line(l.committer, Identity(a.committer)) + ([NEWLINE] + a.message),
                Line(l.committer, Identity(b.committer)) + ([NEWLINE] + b.message);
    var x, y := Line(l.author, Identity(a.author)) + c, Line(l.author, Identity(b.author)) + d;
    HexClean(a.tree);
    HexClean(b.tree);
    LineInjective(l.tree, Hex(a.tree), ParentLines(l.parent, a.parents) + x, Hex(b.tree), ParentLines(l.parent,
                  b.parents) + y);
    HexInjective(a.tree, b.tree);
    ParentsInjective(l.parent, a.parents, x, b.parents, y);
    IdentityClean(a.author);
    IdentityClean(b.author);
    LineInjective(l.author, Identity(a.author), c, Identity(b.author), d);
    IdentityDetermines(a.author, b.author);
    IdentityClean(a.committer);
    IdentityClean(b.committer);
    LineInjective(l.committer, Identity(a.committer), [NEWLINE] + a.message, Identity(b.committer),
                  [NEWLINE] + b.message);
    IdentityDetermines(a.committer, b.committer);
    PrefixCancels([NEWLINE], a.message, b.message);
  }

  lemma SameFramed(l: Labels, a: CanonicalCommit, b: CanonicalCommit)
    requires a.tree == b.tree && a.parents == b.parents && a.message == b.message
    requires Identity(a.author) == Identity(b.author) && Identity(a.committer) == Identity(b.committer)
    ensures Framed(l, a) == Framed(l, b)
  {
  }

  /** Two commits whose identities are of one line, the first's legible, have the same bytes, hence the same
      id, exactly when they agree in every declared field, offsets to the minute. */
  lemma BytesDetermine(a: CanonicalCommit, b: CanonicalCommit)
    requires OneLined(a) && OneLined(b) && Legible(a.author) && Legible(a.committer)
    ensures RawBytes(a) == RawBytes(b) <==> SameCommit(a, b)
  {
    if RawBytes(a) == RawBytes(b) { FramedDetermines(GIT, a, b); }
    if SameCommit(a, b) {
      IdentityDetermines(a.author, b.author);
      IdentityDetermines(a.committer, b.committer);
      SameFramed(GIT, a, b);
    }
  }

  /** Among commits whose identities are of one line, exactly: a commit's bytes are those of no other if and
      only if both its identities are legible. */
  lemma BytesExactly(a: CanonicalCommit)
    requires OneLined(a)
    ensures (forall b :: OneLined(b) && RawBytes(a) == RawBytes(b) ==> SameCommit(a, b)) <==>
            Legible(a.author) && Legible(a.committer)
  {
    if Legible(a.author) && Legible(a.committer) {
      forall b | OneLined(b) && RawBytes(a) == RawBytes(b) ensures SameCommit(a, b) { BytesDetermine(a, b); }
    } else if !Legible(a.author) {
      var author := Sibling(a.author);
      var b := a.(author := author);
      SameFramed(GIT, a, b);
      assert OneLined(b) && RawBytes(a) == RawBytes(b) && !SameCommit(a, b);
    } else {
      var committer := Sibling(a.committer);
      var b := a.(committer := committer);
      SameFramed(GIT, a, b);
      assert OneLined(b) && RawBytes(a) == RawBytes(b) && !SameCommit(a, b);
    }
  }

  /** The lines from the author's stamp to the message. */
  function AfterEmail(l: Labels, email: Text, stamp: Text, committer: Signature, message: Text): Text {
    BRACKET + (email + ([CLOSE] + ([SPACE] + (stamp + ([NEWLINE] + Below(l, committer, message))))))
  }

  function Below(l: Labels, committer: Signature, message: Text): Text {
    Line(l.committer, Identity(committer)) + ([NEWLINE] + message)
  }

  lemma AuthorLine(l: Labels, s: Signature, committer: Signature, message: Text)
    ensures Line(l.author, Identity(s)) + Below(l, committer, message) ==
            (l.author + [SPACE]) + (s.name + AfterEmail(l, s.email, Stamp(s), committer, message))
  {
    IdentityParts(s);
    var rest := Below(l, committer, message);
    var stamp := Stamp(s);
    assert Line(l.author, Identity(s)) == (l.author + [SPACE]) + (Identity(s) + [NEWLINE]);
    Assoc(l.author + [SPACE], Identity(s) + [NEWLINE], rest);
    Assoc(Identity(s), [NEWLINE], rest);
    var tail := [NEWLINE] + rest;
    Assoc(Head(s), [CLOSE] + ([SPACE] + stamp), tail);
    Assoc([CLOSE], [SPACE] + stamp, tail);
    Assoc([SPACE], stamp, tail);
    Assoc(s.name, BRACKET + s.email, [CLOSE] + ([SPACE] + (stamp + tail)));
    Assoc(BRACKET, s.email, [CLOSE] + ([SPACE] + (stamp + tail)));
  }

  /** A newline in a name does collide: what one commit has as its author's email and stamp, its committer and
      the head of its message, another has inside its author's name. */
  lemma NewlinesCollide(a: CanonicalCommit, text: Text, author: Signature, committer: Signature, message: Text)
    requires author.name == a.author.name + AfterEmail(GIT, a.author.email, Stamp(a.author), a.committer, text)
    requires a.message == text + AfterEmail(GIT, author.email, Stamp(author), committer, message)
    ensures var b := CanonicalCommit(a.tree, a.parents, author, committer, message);
      RawBytes(a) == RawBytes(b) && !SameCommit(a, b) && !OneLined(b)
  {
    var b := CanonicalCommit(a.tree, a.parents, author, committer, message);
    var more := AfterEmail(GIT, author.email, Stamp(author), committer, message);
    AuthorLine(GIT, a.author, a.committer, a.message);
    AuthorLine(GIT, author, committer, message);
    AfterEmailOn(GIT, a.author.email, Stamp(a.author), a.committer, text, more);
    Assoc(a.author.name, AfterEmail(GIT, a.author.email, Stamp(a.author), a.committer, text), more);
    assert |author.name| > |a.author.name|;
    NewlineInside(GIT, a.author.email, Stamp(a.author), a.committer, text);
  }

  lemma AfterEmailOn(l: Labels, email: Text, stamp: Text, committer: Signature, text: Text, more: Text)
    ensures AfterEmail(l, email, stamp, committer, text) + more == AfterEmail(l, email, stamp, committer, text + more)
  {
    var line := Line(l.committer, Identity(committer));
    Assoc([NEWLINE], text, more);
    Assoc(line, [NEWLINE] + text, more);
    Assoc([NEWLINE], Below(l, committer, text), more);
    Assoc(stamp, [NEWLINE] + Below(l, committer, text), more);
    Assoc([SPACE], stamp + ([NEWLINE] + Below(l, committer, text)), more);
    Assoc([CLOSE], [SPACE] + (stamp + ([NEWLINE] + Below(l, committer, text))), more);
    Assoc(email, [CLOSE] + ([SPACE] + (stamp + ([NEWLINE] + Below(l, committer, text)))), more);
    Assoc(BRACKET, email + ([CLOSE] + ([SPACE] + (stamp + ([NEWLINE] + Below(l, committer, text))))), more);
  }

  lemma NewlineInside(l: Labels, email: Text, stamp: Text, committer: Signature, text: Text)
    ensures NEWLINE in AfterEmail(l, email, stamp, committer, text)
  {
    assert NEWLINE in [NEWLINE] + Below(l, committer, text);
    assert NEWLINE in stamp + ([NEWLINE] + Below(l, committer, text));
  }

  // ---- duplicate parents ----

  predicate Distinct(s: seq<Text>) { forall i, j :: 0 <= i < j < |s| ==> s[i] != s[j] }

  /** Element `j` is the first to repeat an earlier one. */
  predicate Repeats(s: seq<Text>, j: nat)
    requires j < |s|
  {
    Distinct(s[..j]) && s[j] in s[..j]
  }

  /** The scan with a set of what has been seen: nothing exactly when no parent repeats, and otherwise
      the first parent that repeats one before it. */
  method FirstRepeat(parents: seq<Text>) returns (r: Option<Text>)
    ensures r == None <==> Distinct(parents)
    ensures r.Some? ==> exists j :: 0 <= j < |parents| && Repeats(parents, j) && r.value == parents[j]
  {
    var seen: set<Text> := {};
    for i := 0 to |parents|
      invariant Distinct(parents[..i])
      invariant forall p :: p in seen <==> p in parents[..i]
    {
      if parents[i] in seen {
        var k :| 0 <= k < i && parents[..i][k] == parents[i];
        assert parents[k] == parents[i] && Repeats(parents, i);
        return Some(parents[i]);
      }
      assert parents[..i + 1] == parents[..i] + [parents[i]];
      seen := seen + {parents[i]};
    }
    assert parents[..|parents|] == parents;
    return None;
  }

  datatype WriteError = TrailerReserved(trailer: Text) | DuplicateParent(parent: Text)

  /** `write_canonical`: a message with a reserved trailer is refused first, then a repeated parent, naming the
      first that repeats; anything else is stored as its framed bytes. */
  method WriteCanonical(c: CanonicalCommit) returns (r: Result<Text, WriteError>)
    ensures match Messages.Reserved(c.message, Messages.TRAILERS)
            case Some(t) => r == Err(TrailerReserved(t))
            case None =>
              if Distinct(c.parents) then r == Ok(RawBytes(c))
              else
                && r.Err? && r.error.DuplicateParent?
                && exists j :: 0 <= j < |c.parents| && Repeats(c.parents, j) && r.error.parent == c.parents[j]
  {
    var reserved := Messages.Validate(c.message);
    if reserved.Some? { return Err(TrailerReserved(reserved.value)); }
    var repeat := FirstRepeat(c.parents);
    if repeat.Some? { return Err(DuplicateParent(repeat.value)); }
    var bytes := Write(GIT, c);
    return Ok(bytes);
  }
}
