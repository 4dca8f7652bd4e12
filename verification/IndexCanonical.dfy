/** What the index reader accepts beyond what the writer writes (`git-store/src/index.rs`). */
module IndexCanonical {
  import opened Wrappers
  import opened Order
  import opened Names
  import opened IndexCodec

  predicate Upper(c: byte) { 'A' as int <= c <= 'F' as int }

  predicate NoUpper(s: Text) { forall i :: 0 <= i < |s| ==> !Upper(s[i]) }

  predicate SlashFree(p: seq<Text>) { forall i :: 0 <= i < |p| ==> SLASH !in p[i] }

  // ---- hex, backwards ----

  lemma PairBack(a: byte, b: byte)
    requires HexDigit(a).Some? && HexDigit(b).Some? && !Upper(a) && !Upper(b)
    ensures var n := HexDigit(a).value * 16 + HexDigit(b).value;
      0 <= n < 0x100 && HexChar(n / 16) == a && HexChar(n % 16) == b
  {
  }

  lemma HexHead(n: byte, rest: Text)
    ensures Hex([n] + rest) == [HexChar(n / 16), HexChar(n % 16)] + Hex(rest)
  {
    assert ([n] + rest)[1..] == rest;
  }

  lemma {:induction false} HexOfUnhex(s: Text)
    requires Unhex(s).Some? && NoUpper(s)
    ensures Hex(Unhex(s).value) == s
  {
    if s != [] {
      HexOfUnhex(s[2..]);
      PairBack(s[0], s[1]);
      var rest := Unhex(s[2..]).value;
      var n: byte := HexDigit(s[0]).value * 16 + HexDigit(s[1]).value;
      assert Unhex(s).value == [n] + rest;
      HexHead(n, rest);
      assert s == [s[0], s[1]] + s[2..];
    }
  }

  lemma {:induction false} HexNoUpper(s: Text)
    ensures NoUpper(Hex(s))
  {
    if s != [] { HexNoUpper(s[1..]); }
  }

  lemma {:induction false} FixedNoUpper(n: nat, width: nat)
    ensures |HexFixed(n, width)| == width && NoUpper(HexFixed(n, width))
  {
    if width > 0 { FixedNoUpper(n / 16, width - 1); }
  }

  /** The last digit is the units. */
  lemma {:induction false} ParseBack(value: nat, s: Text)
    requires s != [] && ParseHexFrom(value, s).Some?
    ensures HexDigit(s[|s| - 1]).Some? && ParseHexFrom(value, s[..|s| - 1]).Some?
    ensures ParseHexFrom(value, s).value == ParseHexFrom(value, s[..|s| - 1]).value * 16 + HexDigit(s[|s| - 1]).value
    decreases |s|
  {
    var d := HexDigit(s[0]).value;
    if |s| == 1 {
      assert s[..0] == [];
    } else {
      ParseBack(value * 16 + d, s[1..]);
      assert s[..|s| - 1][1..] == s[1..][..|s[1..]| - 1];
    }
  }

  lemma {:induction false} FixedOfParse(s: Text)
    requires ParseHexFrom(0, s).Some? && NoUpper(s)
    ensures HexFixed(ParseHexFrom(0, s).value, |s|) == s
  {
    if s != [] {
      ParseBack(0, s);
      FixedOfParse(s[..|s| - 1]);
      assert s == s[..|s| - 1] + [s[|s| - 1]];
    }
  }

  // ---- frames, backwards ----

  /** The first frame's header and body, and what follows. */
  lemma UnframeParts(s: Text, p: Path) returns (header: Text, body: Text, tail: Text)
    requires p != [] && Unframe(s) == Some(p)
    ensures s == header + body + tail && |header| == 8
    ensures ParseHexFrom(0, header).Some? && |body| == 2 * ParseHexFrom(0, header).value
    ensures Unhex(body) == Some(p[0]) && Unframe(tail) == Some(p[1..])
  {
    header := s[..8];
    var length := ParseHexFrom(0, header).value;
    body := s[8..8 + length * 2];
    tail := s[8 + length * 2..];
    assert p == [Unhex(body).value] + Unframe(tail).value;
  }

  lemma NoUpperParts(a: Text, b: Text, c: Text)
    requires NoUpper(a + b + c)
    ensures NoUpper(a) && NoUpper(b) && NoUpper(c)
  {
    var s := a + b + c;
    assert forall i :: 0 <= i < |a| ==> a[i] == s[i];
    assert forall i :: 0 <= i < |b| ==> b[i] == s[|a| + i];
    assert forall i :: 0 <= i < |c| ==> c[i] == s[|a| + |b| + i];
  }

  /** What follows the first frame, the first frame being as it is written. */
  lemma FrameTail(s: Text, p: Path) returns (tail: Text)
    requires p != [] && Unframe(s) == Some(p) && NoUpper(s)
    ensures s == HexFixed(|p[0]|, 8) + Hex(p[0]) + tail
    ensures Unframe(tail) == Some(p[1..]) && NoUpper(tail)
  {
    var header, body, rest := UnframeParts(s, p);
    NoUpperParts(header, body, rest);
    FixedOfParse(header);
    HexOfUnhex(body);
    HexLength(p[0]);
    tail := rest;
  }

  lemma UnframeEmpty(s: Text)
    requires Unframe(s) == Some([])
    ensures s == []
  {
  }

  lemma {:induction false} FramesOfUnframe(s: Text, p: Path)
    requires Unframe(s) == Some(p) && NoUpper(s)
    ensures Frames(p) == s
    decreases |p|
  {
    if p == [] {
      UnframeEmpty(s);
    } else {
      var tail := FrameTail(s, p);
      FramesOfUnframe(tail, p[1..]);
    }
  }

  lemma {:induction false} FramesNoUpper(p: Path)
    ensures NoUpper(Frames(p))
  {
    if p != [] {
      FixedNoUpper(|p[0]|, 8);
      HexNoUpper(p[0]);
      FramesNoUpper(p[1..]);
    }
  }

  // ---- counting ----

  function Total(p: seq<Text>): nat { if p == [] then 0 else |p[0]| + Total(p[1..]) }

  lemma {:induction false} FramesLength(p: Path)
    ensures |Frames(p)| == 8 * |p| + 2 * Total(p)
  {
    if p != [] {
      FixedNoUpper(|p[0]|, 8);
      HexLength(p[0]);
      FramesLength(p[1..]);
    }
  }

  lemma {:induction false} JoinLength(p: Path)
    requires p != []
    ensures |Join(p)| + 1 == Total(p) + |p|
  {
    if |p| > 1 { JoinLength(p[1..]); }
  }

  lemma {:induction false} SplitsAtSlash(s: Text)
    ensures |Split(s)| == 1 ==> SLASH !in s
  {
    if s != [] { SplitsAtSlash(s[1..]); }
  }

  /** Joining and splitting again never loses a segment, and gains none only when none holds a slash. */
  lemma {:induction false} SplitCount(p: Path)
    requires p != []
    ensures |Split(Join(p))| >= |p|
    ensures |Split(Join(p))| == |p| ==> SlashFree(p)
  {
    SplitsAtSlash(p[0]);
    if |p| > 1 {
      SplitCount(p[1..]);
      SplitJoined(p[0], Join(p[1..]));
    }
  }

  // ---- exactly the filenames the writer writes ----

  predicate Written(s: Text)
    requires s != [] && Unframe(s[1..]).Some?
  {
    NoUpper(s[1..]) && SlashFree(Unframe(s[1..]).value)
  }

  /** An accepted filename re-encodes to itself exactly when it uses no upper-case hex digit and no frame
      holds a slash. */
  lemma ReencodesExactly(s: Text)
    requires Decoded(s).Some?
    ensures Encoded(Decoded(s).value) == s <==> Written(s)
  {
    var frames := Unframe(s[1..]).value;
    var p := Decoded(s).value;
    assert s == [P] + s[1..];
    if Written(s) {
      SplitOfJoin(frames);
      FramesOfUnframe(s[1..], frames);
    }
    if Encoded(p) == s {
      assert Encoded(p)[1..] == Frames(p);
      FramesNoUpper(p);
      FramesOfUnframe(s[1..], frames);
      FramesLength(p);
      FramesLength(frames);
      JoinLength(frames);
      DisplayParse(Join(frames));
      JoinLength(p);
      SplitCount(frames);
    }
  }
}
