/** Commit messages and the trailers they may not recreate (`git-store/src/store.rs`). */
module Messages {
  import opened Wrappers
  import opened Order
  import opened Unicode

  const NEWLINE: byte := '\n' as int

  const TRAILERS: seq<Text> :=
    [Ascii("Schema:"), Ascii("Schema-Version:"), Ascii("Schema-commit:"), Ascii("Ents-Ref:")]

  /** The bytes of the white-space character `s` begins with, in UTF-8; none when it begins with another. */
  function SpaceAt(s: Text): (n: nat)
    ensures n <= |s|
  {
    if |s| >= 1 && (9 <= s[0] <= 13 || s[0] == ' ' as int) then 1
    else if |s| >= 2 && s[0] == 0xc2 && (s[1] == 0x85 || s[1] == 0xa0) then 2
    else if |s| >= 3 && s[0] == 0xe1 && s[1] == 0x9a && s[2] == 0x80 then 3
    else if |s| >= 3 && s[0] == 0xe2 && s[1] == 0x80
      && (0x80 <= s[2] <= 0x8a || s[2] == 0xa8 || s[2] == 0xa9 || s[2] == 0xaf) then 3
    else if |s| >= 3 && s[0] == 0xe2 && s[1] == 0x81 && s[2] == 0x9f then 3
    else if |s| >= 3 && s[0] == 0xe3 && s[1] == 0x80 && s[2] == 0x80 then 3
    else 0
  }

  /** The code points with Unicode's White_Space property. */
  predicate WhiteSpace(c: nat) {
    || 0x09 <= c <= 0x0d || c == 0x20 || c == 0x85 || c == 0xa0 || c == 0x1680
    || 0x2000 <= c <= 0x200a || c == 0x2028 || c == 0x2029 || c == 0x202f || c == 0x205f || c == 0x3000
  }

  /** What is white space, told from the character the text begins with. */
  lemma SpaceMeaning(s: Text)
    ensures s == [] || ScalarLength(s) == 0 ==> SpaceAt(s) == 0
    ensures s != [] && ScalarLength(s) > 0 ==>
      SpaceAt(s) == if WhiteSpace(Decode(s)) then ScalarLength(s) else 0
  {
  }

  function TrimStart(s: Text): (r: Text)
    ensures |r| <= |s| && SpaceAt(r) == 0
  {
    if SpaceAt(s) == 0 then s else TrimStart(s[SpaceAt(s)..])
  }

  /** Where the first line of `s` ends. */
  function LineEnd(s: Text): (n: nat)
    ensures n <= |s| && NEWLINE !in s[..n] && (n < |s| ==> s[n] == NEWLINE)
  {
    if s == [] || s[0] == NEWLINE then 0
    else
      var n := LineEnd(s[1..]);
      assert s[..n + 1] == [s[0]] + s[1..][..n];
      n + 1
  }

  function FirstTrailer(line: Text, trailers: seq<Text>): Option<Text> {
    if trailers == [] then None
    else if trailers[0] <= line then Some(trailers[0])
    else FirstTrailer(line, trailers[1..])
  }

  /** The first reserved trailer that begins a line of `s`, white space aside. */
  function Reserved(s: Text, trailers: seq<Text>): Option<Text>
    decreases |s|
  {
    var n := LineEnd(s);
    match FirstTrailer(TrimStart(s[..n]), trailers)
    case Some(t) => Some(t)
    case None => if n == |s| then None else Reserved(s[n + 1..], trailers)
  }

  predicate Accepted(message: Text) { Reserved(message, TRAILERS) == None }

  /** `validate_commit_message`: line by line, trailer by trailer. */
  method Validate(message: Text) returns (r: Option<Text>)
    ensures r == Reserved(message, TRAILERS)
  {
    var rest := message;
    while true
      invariant Reserved(rest, TRAILERS) == Reserved(message, TRAILERS)
      decreases |rest|
    {
      var n := LineEnd(rest);
      var line := TrimStart(rest[..n]);
      for i := 0 to |TRAILERS|
        invariant FirstTrailer(line, TRAILERS[i..]) == FirstTrailer(line, TRAILERS)
      {
        assert TRAILERS[i..][0] == TRAILERS[i] && TRAILERS[i..][1..] == TRAILERS[i + 1..];
        if TRAILERS[i] <= line { return Some(TRAILERS[i]); }
      }
      if n == |rest| { return None; }
      rest := rest[n + 1..];
    }
  }

  // ---- what is refused ----

  predicate Blank(s: Text) { TrimStart(s) == [] && NEWLINE !in s }

  predicate LineStart(s: Text, i: nat)
    requires i <= |s|
  {
    i == 0 || s[i - 1] == NEWLINE
  }

  /** At `i` a line begins, blank up to `j`, where the trailer `t` stands. */
  predicate Recreates(s: Text, t: Text, i: nat, j: nat) {
    i <= j <= |s| && LineStart(s, i) && Blank(s[i..j]) && t <= s[j..]
  }

  lemma {:induction false} FirstTrailerMeaning(line: Text, trailers: seq<Text>)
    ensures FirstTrailer(line, trailers) == None ==> forall t <- trailers :: !(t <= line)
    ensures FirstTrailer(line, trailers).Some? ==>
      FirstTrailer(line, trailers).value in trailers && FirstTrailer(line, trailers).value <= line
  {
    if trailers != [] {
      FirstTrailerMeaning(line, trailers[1..]);
      assert forall t :: t in trailers <==> t == trailers[0] || t in trailers[1..];
    }
  }

  /** A leading white-space character is told by its own bytes. */
  lemma SpaceStable(a: Text, b: Text)
    requires SpaceAt(a) > 0 && SpaceAt(a) <= |b| && b[..SpaceAt(a)] == a[..SpaceAt(a)]
    ensures SpaceAt(b) == SpaceAt(a)
  {
    var n := SpaceAt(a);
    assert forall i :: 0 <= i < n ==> b[i] == b[..n][i] == a[..n][i] == a[i];
  }

  lemma {:induction false} TrimSplits(s: Text)
    ensures var j := |s| - |TrimStart(s)|; s[j..] == TrimStart(s) && TrimStart(s[..j]) == []
  {
    hide SpaceAt;
    var n := SpaceAt(s);
    if n > 0 {
      TrimSplits(s[n..]);
      var j := |s| - |TrimStart(s)|;
      assert s[n..][j - n..] == s[j..] && s[..j][n..] == s[n..][..j - n];
      assert s[..j][..n] == s[..n];
      SpaceStable(s, s[..j]);
    }
  }

  lemma {:induction false} TrimPast(a: Text, b: Text)
    requires TrimStart(a) == []
    ensures TrimStart(a + b) == TrimStart(b)
  {
    hide SpaceAt;
    if a == [] {
      assert a + b == b;
    } else {
      var n := SpaceAt(a);
      assert (a + b)[..n] == a[..n] && (a + b)[n..] == a[n..] + b;
      SpaceStable(a, a + b);
      TrimPast(a[n..], b);
    }
  }

  /** A trailer is ink from its first byte, and on one line. */
  predicate Ink(t: Text) { t != [] && 'A' as int <= t[0] <= 'Z' as int && NEWLINE !in t }

  /** One line begins with a trailer, white space aside, exactly when some blank stretch precedes it there. */
  lemma LineMeaning(line: Text, t: Text, j: nat)
    requires Ink(t) && NEWLINE !in line
    ensures t <= TrimStart(line) ==> Recreates(line, t, 0, |line| - |TrimStart(line)|)
    ensures Recreates(line, t, 0, j) ==> t <= TrimStart(line)
  {
    TrimSplits(line);
    var k := |line| - |TrimStart(line)|;
    assert line[0..k] == line[..k];
    if Recreates(line, t, 0, j) {
      var rest := line[j..];
      assert line == line[0..j] + rest && rest[0] == t[0];
      TrimPast(line[0..j], rest);
      assert TrimStart(rest) == rest;
    }
  }

  lemma Pointwise(s: Text, t: Text, i: nat, j: nat)
    requires Recreates(s, t, i, j)
    ensures forall m :: i <= m < j ==> s[m] != NEWLINE
    ensures j + |t| <= |s| && forall m :: j <= m < j + |t| ==> s[m] == t[m - j]
  {
    hide TrimStart;
    assert forall m :: i <= m < j ==> s[m] == s[i..j][m - i];
    assert s[j..j + |t|] == s[j..][..|t|] == t;
    assert forall m :: j <= m < j + |t| ==> s[m] == s[j..j + |t|][m - j];
  }

  /** A trailer recreated on the first line is recreated within it. */
  lemma RecreatedFirst(s: Text, t: Text, i: nat, j: nat)
    requires Ink(t) && Recreates(s, t, i, j) && i <= LineEnd(s)
    ensures i == 0 && Recreates(s[..LineEnd(s)], t, 0, j)
  {
    hide TrimStart, LineEnd;
    var n := LineEnd(s);
    var line := s[..n];
    Pointwise(s, t, i, j);
    assert forall m :: 0 <= m < n ==> s[m] == line[m];
    assert forall m :: j <= m < j + |t| ==> s[m] != NEWLINE;
    assert line[0..j] == s[0..j];
    assert forall m :: 0 <= m < |t| ==> line[j..][m] == s[j + m];
  }

  lemma RecreatedLater(s: Text, t: Text, i: nat, j: nat)
    requires Recreates(s, t, i, j) && i > LineEnd(s)
    ensures var n := LineEnd(s) + 1; n <= i && n <= j && Recreates(s[n..], t, i - n, j - n)
  {
    hide TrimStart, LineEnd;
    var n := LineEnd(s) + 1;
    var rest := s[n..];
    assert rest[i - n..j - n] == s[i..j] && rest[j - n..] == s[j..];
    if i > n { assert rest[i - n - 1] == s[i - 1]; }
  }

  /** A recreation stays one when whole lines are put before it. */
  lemma LaterRecreation(head: Text, rest: Text, t: Text, i: nat, j: nat)
    requires head != [] && head[|head| - 1] == NEWLINE && Recreates(rest, t, i, j)
    ensures Recreates(head + rest, t, |head| + i, |head| + j)
  {
    hide Blank;
    var s, n := head + rest, |head|;
    assert s[n + i..n + j] == rest[i..j];
    assert s[n + j..] == rest[j..];
    assert s[n + i - 1] == if i == 0 then head[n - 1] else rest[i - 1];
  }

  lemma FirstRecreation(s: Text, t: Text, j: nat)
    requires Recreates(s[..LineEnd(s)], t, 0, j)
    ensures Recreates(s, t, 0, j)
  {
    hide TrimStart, LineEnd;
    var n := LineEnd(s);
    Pointwise(s[..n], t, 0, j);
    assert s[..n][0..j] == s[0..j];
    assert forall m :: 0 <= m < |t| ==> s[j..][m] == s[..n][j + m] == t[m];
  }

  lemma RefusedAtOnce(s: Text, trailers: seq<Text>, t: Text)
    requires FirstTrailer(TrimStart(s[..LineEnd(s)]), trailers) == Some(t) && Ink(t)
    ensures Recreates(s, t, 0, LineEnd(s) - |TrimStart(s[..LineEnd(s)])|)
  {
    hide TrimStart, Blank, LineEnd;
    var n := LineEnd(s);
    FirstTrailerMeaning(TrimStart(s[..n]), trailers);
    LineMeaning(s[..n], t, 0);
    FirstRecreation(s, t, n - |TrimStart(s[..n])|);
  }

  lemma NotAtOnce(s: Text, trailers: seq<Text>, t: Text, k: nat, m: nat)
    requires t in trailers && Ink(t) && Recreates(s, t, k, m)
    requires FirstTrailer(TrimStart(s[..LineEnd(s)]), trailers) == None
    ensures k > LineEnd(s)
  {
    hide TrimStart, Blank, LineEnd;
    FirstTrailerMeaning(TrimStart(s[..LineEnd(s)]), trailers);
    if k <= LineEnd(s) {
      RecreatedFirst(s, t, k, m);
      LineMeaning(s[..LineEnd(s)], t, m);
    }
  }

  lemma RefusedLater(s: Text, t: Text, i: nat, j: nat)
    requires LineEnd(s) < |s| && Recreates(s[LineEnd(s) + 1..], t, i, j)
    ensures var n := LineEnd(s) + 1; Recreates(s, t, n + i, n + j)
  {
    hide Recreates, LineEnd;
    var n := LineEnd(s) + 1;
    assert s[..n] + s[n..] == s;
    LaterRecreation(s[..n], s[n..], t, i, j);
  }

  /** A refused message recreates the trailer that is reported, on the first line that recreates any. */
  lemma {:induction false} RefusedForIt(s: Text, trailers: seq<Text>) returns (i: nat, j: nat)
    requires Reserved(s, trailers).Some? && forall t <- trailers :: Ink(t)
    ensures Reserved(s, trailers).value in trailers && Recreates(s, Reserved(s, trailers).value, i, j)
    ensures forall t, k, m :: t in trailers && Recreates(s, t, k, m) ==> i <= k
    decreases |s|
  {
    hide TrimStart, Recreates, LineEnd;
    var n := LineEnd(s);
    var line := TrimStart(s[..n]);
    FirstTrailerMeaning(line, trailers);
    if FirstTrailer(line, trailers).Some? {
      RefusedAtOnce(s, trailers, FirstTrailer(line, trailers).value);
      i, j := 0, n - |line|;
    } else {
      i, j := RefusedForIt(s[n + 1..], trailers);
      forall t, k, m | t in trailers && Recreates(s, t, k, m) ensures n + 1 + i <= k {
        NotAtOnce(s, trailers, t, k, m);
        RecreatedLater(s, t, k, m);
      }
      RefusedLater(s, Reserved(s, trailers).value, i, j);
      i, j := n + 1 + i, n + 1 + j;
    }
  }

  /** A message that recreates a reserved trailer at the start of any line, with at most white space
      before it, is refused. */
  lemma {:induction false} RecreatedIsRefused(s: Text, trailers: seq<Text>, t: Text, i: nat, j: nat)
    requires t in trailers && Ink(t) && Recreates(s, t, i, j)
    ensures Reserved(s, trailers).Some?
    decreases |s|
  {
    hide TrimStart, Blank;
    var n := LineEnd(s);
    var line := TrimStart(s[..n]);
    FirstTrailerMeaning(line, trailers);
    if i <= n {
      RecreatedFirst(s, t, i, j);
      LineMeaning(s[..n], t, j);
    } else {
      RecreatedLater(s, t, i, j);
      RecreatedIsRefused(s[n + 1..], trailers, t, i - n - 1, j - n - 1);
    }
  }

  /** What the store accepts: the messages that recreate no reserved trailer at the start of a line. */
  lemma AcceptedMeaning(message: Text)
    ensures Accepted(message) <==> !exists t, i, j :: t in TRAILERS && Recreates(message, t, i, j)
  {
    AllInk();
    if !Accepted(message) {
      var i, j := RefusedForIt(message, TRAILERS);
    }
    forall t, i, j | t in TRAILERS && Recreates(message, t, i, j) ensures !Accepted(message) {
      RecreatedIsRefused(message, TRAILERS, t, i, j);
    }
  }

  /** One line that begins with a small letter recreates nothing; nor does no line at all. The message of
      a deletion is such a line. */
  lemma PlainAccepted(message: Text)
    requires NEWLINE !in message && (message == [] || 'a' as int <= message[0] <= 'z' as int)
    ensures Accepted(message)
  {
    var n := LineEnd(message);
    assert NEWLINE !in message && n == |message| && message[..n] == message;
    FirstTrailerMeaning(message, TRAILERS);
    AllInk();
  }

  /** Nor does a newline at its end change that. */
  lemma LineAccepted(message: Text)
    requires NEWLINE !in message && Accepted(message)
    ensures Accepted(message + [NEWLINE])
  {
    var s, n := message + [NEWLINE], LineEnd(message + [NEWLINE]);
    assert message[..LineEnd(message)] == message;
    assert forall k :: 0 <= k < |message| ==> s[k] == message[k];
    assert forall k :: 0 <= k < n ==> s[k] == s[..n][k];
    assert s[|message|] == NEWLINE && n == |message|;
    assert s[..n] == message && s[n + 1..] == [];
    FirstTrailerMeaning(TrimStart([]), TRAILERS);
    AllInk();
  }

  /** The four reserved trailers: no message may begin with one. */
  lemma TrailerReserved(t: Text, rest: Text)
    requires t == Ascii("Schema:") || t == Ascii("Schema-Version:") || t == Ascii("Schema-commit:")
             || t == Ascii("Ents-Ref:")
    ensures !Accepted(t + rest)
  {
    var s := t + rest;
    assert t in TRAILERS by { TrailersAre(); }
    AllInk();
    assert s[0..] == s && t <= s && s[0..0] == [];
    hide Ascii;
    assert Recreates(s, t, 0, 0);
    RecreatedIsRefused(s, TRAILERS, t, 0, 0);
  }

  lemma TrailersAre()
    ensures Ascii("Schema:") in TRAILERS && Ascii("Schema-Version:") in TRAILERS
    ensures Ascii("Schema-commit:") in TRAILERS && Ascii("Ents-Ref:") in TRAILERS
  {
    assert TRAILERS[0] == Ascii("Schema:") && TRAILERS[1] == Ascii("Schema-Version:");
    assert TRAILERS[2] == Ascii("Schema-commit:") && TRAILERS[3] == Ascii("Ents-Ref:");
  }

  lemma AllInk()
    ensures forall t <- TRAILERS :: Ink(t)
  {
    assert forall k :: 0 <= k < |TRAILERS| ==> Ink(TRAILERS[k]);
  }
}
