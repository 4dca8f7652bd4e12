/** Validated ref-name pieces and the algebra of joining, splitting and stripping them
    (`gix-refstore/src/name.rs`). Names are byte strings; every rule looks only at ASCII bytes. */
module Names {
  import opened Wrappers
  import opened Order

  datatype Violation =
    | Empty | BoundaryDot | LockSuffix | AmbiguousSequence | LoneAt
    | ControlOrSpace | ForbiddenCharacter | Separator | BoundarySlash

  /** The segments of a `RefPath`, outermost first. */
  type Path = seq<Text>

  const SLASH: byte := '/' as int
  const DOT: byte := '.' as int
  const AT: byte := '@' as int

  predicate EndsWith(s: Text, suffix: Text) {
    |s| >= |suffix| && s[|s| - |suffix|..] == suffix
  }

  predicate ContainsPair(s: Text, a: byte, b: byte) {
    exists i :: 0 <= i < |s| - 1 && s[i] == a && s[i + 1] == b
  }

  predicate Control(c: byte) { c < 0x20 || c == 0x7f }

  predicate Forbidden(c: byte) { c in Ascii("~^:?*[\\") }

  function CharDefect(s: Text): Option<Violation> {
    if s == [] then None
    else if Control(s[0]) || s[0] == ' ' as int then Some(ControlOrSpace)
    else if Forbidden(s[0]) then Some(ForbiddenCharacter)
    else CharDefect(s[1..])
  }

  function SegmentDefect(s: Text): Option<Violation> {
    if s == [] then Some(Empty)
    else if s[0] == DOT || s[|s| - 1] == DOT then Some(BoundaryDot)
    else if EndsWith(s, Ascii(".lock")) then Some(LockSuffix)
    else if ContainsPair(s, DOT, DOT) || ContainsPair(s, AT, '{' as int) then Some(AmbiguousSequence)
    else if s == [AT] then Some(LoneAt)
    else CharDefect(s)
  }

  /** `str::split('/')`: never empty, and the empty text splits to one empty piece. */
  function Split(s: Text): (r: seq<Text>)
    ensures |r| >= 1
  {
    if s == [] then [[]]
    else if s[0] == SLASH then [[]] + Split(s[1..])
    else
      var r := Split(s[1..]);
      [[s[0]] + r[0]] + r[1..]
  }

  function Join(p: Path): Text
    requires p != []
  {
    if |p| == 1 then p[0] else p[0] + [SLASH] + Join(p[1..])
  }

  function FirstDefect(p: seq<Text>): Option<Violation> {
    if p == [] then None
    else match SegmentDefect(p[0])
      case Some(v) => Some(v)
      case None => FirstDefect(p[1..])
  }

  function CheckPath(s: Text): Option<Violation> {
    if s == [] then Some(Empty)
    else if s[0] == SLASH || s[|s| - 1] == SLASH then Some(BoundarySlash)
    else FirstDefect(Split(s))
  }

  function CheckSegment(s: Text): Option<Violation> {
    if SLASH in s then Some(Separator) else SegmentDefect(s)
  }

  predicate ValidName(s: Text) { CheckPath(s) == None }

  predicate ValidSegment(s: Text) { CheckSegment(s) == None }

  predicate ValidPath(p: Path) { p != [] && forall i :: 0 <= i < |p| ==> ValidSegment(p[i]) }

  function NewPath(s: Text): Result<Path, Violation> {
    match CheckPath(s)
    case None => Ok(Split(s))
    case Some(v) => Err(v)
  }

  function Display(p: Path): Text
    requires ValidPath(p)
  {
    Join(p)
  }

  /** `RefPrefix::join`, `RefPrefix::child` and `RefName::join`: built without re-checking. */
  function Child(prefix: Text, segment: Text): Text { prefix + [SLASH] + segment }

  /** `RefPrefix::join_path`. */
  function JoinPath(prefix: Text, p: Path): Text
    requires p != []
  {
    prefix + [SLASH] + Join(p)
  }

  /** `RefName::suffix`: strip the prefix, then one slash. */
  function Suffix(name: Text, prefix: Text): Option<Text> {
    if prefix <= name && |name| > |prefix| && name[|prefix|] == SLASH then Some(name[|prefix| + 1..]) else None
  }

  predicate IsUnder(name: Text, prefix: Text) { Suffix(name, prefix).Some? }

  function RelativeTo(name: Text, prefix: Text): Option<Path> {
    match Suffix(name, prefix)
    case None => None
    case Some(s) =>
      match NewPath(s)
      case Ok(p) => Some(p)
      case Err(_) => None
  }

  // ---- splitting and joining ----

  lemma {:induction false} SplitJoined(a: Text, b: Text)
    ensures Split(a + [SLASH] + b) == Split(a) + Split(b)
  {
    if a == [] {
      assert ([SLASH] + b)[1..] == b;
      assert a + [SLASH] + b == [SLASH] + b;
    } else {
      assert (a + [SLASH] + b)[1..] == a[1..] + [SLASH] + b;
      SplitJoined(a[1..], b);
    }
  }

  lemma {:induction false} SplitSlashFree(s: Text)
    requires SLASH !in s
    ensures Split(s) == [s]
  {
    if s != [] {
      SplitSlashFree(s[1..]);
      assert s == [s[0]] + s[1..];
    }
  }

  lemma {:induction false} PiecesSlashFree(s: Text)
    ensures forall i :: 0 <= i < |Split(s)| ==> SLASH !in Split(s)[i]
  {
    if s != [] { PiecesSlashFree(s[1..]); }
  }

  lemma {:induction false} SplitOfJoin(p: Path)
    requires p != [] && forall i :: 0 <= i < |p| ==> SLASH !in p[i]
    ensures Split(Join(p)) == p
  {
    SplitSlashFree(p[0]);
    if |p| > 1 {
      SplitOfJoin(p[1..]);
      SplitJoined(p[0], Join(p[1..]));
    }
  }

  lemma {:induction false} JoinOfSplit(s: Text)
    ensures Join(Split(s)) == s
  {
    if s != [] {
      JoinOfSplit(s[1..]);
      var r := Split(s[1..]);
      if s[0] == SLASH {
        assert ([[]] + r)[1..] == r;
      } else {
        var q := [[s[0]] + r[0]] + r[1..];
        if |r| > 1 { assert q[1..] == r[1..]; }
      }
      assert s == [s[0]] + s[1..];
    }
  }

  lemma {:induction false} JoinAppend(p: Path, q: Path)
    requires p != [] && q != []
    ensures Join(p + q) == Join(p) + [SLASH] + Join(q)
  {
    if |p| == 1 {
      assert (p + q)[1..] == q;
    } else {
      assert (p + q)[1..] == p[1..] + q;
      JoinAppend(p[1..], q);
    }
  }

  // ---- validity ----

  lemma {:induction false} NoDefect(p: seq<Text>)
    ensures FirstDefect(p) == None <==> forall i :: 0 <= i < |p| ==> SegmentDefect(p[i]) == None
  {
    if p != [] {
      NoDefect(p[1..]);
      if FirstDefect(p) == None {
        forall i | 0 <= i < |p| ensures SegmentDefect(p[i]) == None {
          if i > 0 { assert p[i] == p[1..][i - 1]; }
        }
      }
    }
  }

  lemma {:induction false} SplitEnds(s: Text)
    requires s != []
    ensures s[0] == SLASH ==> Split(s)[0] == []
    ensures s[|s| - 1] == SLASH ==> Split(s)[|Split(s)| - 1] == []
  {
    if |s| > 1 { SplitEnds(s[1..]); }
  }

  predicate Bad(c: byte) { Control(c) || c == ' ' as int || Forbidden(c) }

  lemma {:induction false} CharMeaning(s: Text)
    ensures CharDefect(s) == None <==> forall i :: 0 <= i < |s| ==> !Bad(s[i])
  {
    if s != [] {
      CharMeaning(s[1..]);
      assert forall i :: 1 <= i < |s| ==> s[i] == s[1..][i - 1];
      assert !Bad(s[0]) && CharDefect(s[1..]) == None ==> forall i :: 0 <= i < |s| ==> !Bad(s[i]);
    }
  }

  predicate GoodAt(s: Text, i: nat)
    requires i < |s|
  {
    && s[i] != SLASH && !Bad(s[i])
    && (s[i] == DOT ==> 0 < i < |s| - 1 && s[i + 1] != DOT)
    && (s[i] == AT && i < |s| - 1 ==> s[i + 1] != '{' as int)
  }

  /** A valid segment, seen from any position in it: no slash, no bad character, no dot at an end or
      beside another, no reflog sequence; and it is neither empty, nor `@`, nor a lock file's name. */
  lemma SegmentMeaning(s: Text)
    ensures ValidSegment(s) <==>
      s != [] && s != [AT] && !EndsWith(s, Ascii(".lock")) && forall i :: 0 <= i < |s| ==> GoodAt(s, i)
  {
    CharMeaning(s);
    assert ContainsPair(s, DOT, DOT) <==> exists i :: 0 <= i < |s| - 1 && s[i] == DOT && s[i + 1] == DOT;
    assert ContainsPair(s, AT, '{' as int) <==> exists i :: 0 <= i < |s| - 1 && s[i] == AT && s[i + 1] == '{' as int;
    if ValidSegment(s) {
      forall i | 0 <= i < |s| ensures GoodAt(s, i) { assert s[i] in s; }
    }
    if s != [] && forall i :: 0 <= i < |s| ==> GoodAt(s, i) {
      assert GoodAt(s, 0) && GoodAt(s, |s| - 1);
      forall i | 0 <= i < |s| - 1 ensures !(s[i] == DOT && s[i + 1] == DOT) && !(s[i] == AT && s[i + 1] == '{' as int) {
        assert GoodAt(s, i);
      }
      forall i | 0 <= i < |s| ensures s[i] != SLASH && !Bad(s[i]) { assert GoodAt(s, i); }
    }
  }

  // ---- the rule that is reported ----

  predicate ControlOrSpaceAt(s: Text, i: int) { 0 <= i < |s| && (s[i] <= 0x20 || s[i] == 0x7f) }

  predicate ForbiddenAt(s: Text, i: int) {
    0 <= i < |s| && s[i] in {'~' as int, '^' as int, ':' as int, '?' as int, '*' as int, '[' as int, 92}
  }

  predicate DotsAt(s: Text, i: int) { 0 <= i < |s| - 1 && s[i] == '.' as int && s[i + 1] == '.' as int }

  predicate ReflogAt(s: Text, i: int) { 0 <= i < |s| - 1 && s[i] == '@' as int && s[i + 1] == '{' as int }

  ghost predicate FirstControl(s: Text, i: int) {
    ControlOrSpaceAt(s, i) && forall j :: 0 <= j < i ==> !ForbiddenAt(s, j)
  }

  ghost predicate FirstForbidden(s: Text, i: int) {
    ForbiddenAt(s, i) && forall j :: 0 <= j < i ==> !ControlOrSpaceAt(s, j)
  }

  /** Every rule a segment breaks. Of bad characters only the first counts. */
  ghost predicate Breaks(s: Text, v: Violation) {
    match v
    case Separator => '/' as int in s
    case Empty => s == []
    case BoundaryDot => s != [] && (s[0] == '.' as int || s[|s| - 1] == '.' as int)
    case LockSuffix => |s| >= 5 && s[|s| - 5..] == ['.' as int, 'l' as int, 'o' as int, 'c' as int, 'k' as int]
    case AmbiguousSequence => exists i :: DotsAt(s, i) || ReflogAt(s, i)
    case LoneAt => s == ['@' as int]
    case ControlOrSpace => exists i :: FirstControl(s, i)
    case ForbiddenCharacter => exists i :: FirstForbidden(s, i)
    case BoundarySlash => false
  }

  /** The order the rules are tried in. */
  function Priority(v: Violation): nat {
    match v
    case Separator => 0
    case Empty => 1
    case BoundaryDot => 2
    case LockSuffix => 3
    case AmbiguousSequence => 4
    case LoneAt => 5
    case _ => 6
  }

  lemma ForbiddenMeaning(c: byte)
    ensures Forbidden(c) <==> ForbiddenAt([c], 0)
  {
    assert Ascii("~^:?*[\\") == ['~' as int, '^' as int, ':' as int, '?' as int, '*' as int, '[' as int, 92];
  }

  lemma CharsLater(s: Text, i: int)
    requires i > 0 && s != [] && !ControlOrSpaceAt(s, 0) && !ForbiddenAt(s, 0)
    ensures FirstControl(s, i) <==> FirstControl(s[1..], i - 1)
    ensures FirstForbidden(s, i) <==> FirstForbidden(s[1..], i - 1)
  {
    assert forall j :: 0 < j <= i ==>
      (ControlOrSpaceAt(s, j) <==> ControlOrSpaceAt(s[1..], j - 1)) &&
      (ForbiddenAt(s, j) <==> ForbiddenAt(s[1..], j - 1));
    assert forall j :: 0 <= j < i ==>
      (ControlOrSpaceAt(s[1..], j) <==> ControlOrSpaceAt(s, j + 1)) &&
      (ForbiddenAt(s[1..], j) <==> ForbiddenAt(s, j + 1));
  }

  lemma {:induction false} CharReports(s: Text)
    ensures CharDefect(s) == Some(ControlOrSpace) <==> exists i :: FirstControl(s, i)
    ensures CharDefect(s) == Some(ForbiddenCharacter) <==> exists i :: FirstForbidden(s, i)
    ensures CharDefect(s).Some? ==> CharDefect(s).value in {ControlOrSpace, ForbiddenCharacter}
  {
    if s != [] {
      ForbiddenMeaning(s[0]);
      if ControlOrSpaceAt(s, 0) {
        assert FirstControl(s, 0);
      } else if ForbiddenAt(s, 0) {
        assert FirstForbidden(s, 0);
      } else {
        CharReports(s[1..]);
        if i :| FirstControl(s, i) { CharsLater(s, i); }
        if i :| FirstForbidden(s, i) { CharsLater(s, i); }
        if i :| FirstControl(s[1..], i) { CharsLater(s, i + 1); }
        if i :| FirstForbidden(s[1..], i) { CharsLater(s, i + 1); }
      }
    }
  }

  lemma PairReports(s: Text)
    ensures ContainsPair(s, DOT, DOT) || ContainsPair(s, AT, '{' as int) <==> Breaks(s, AmbiguousSequence)
  {
    if i :| DotsAt(s, i) || ReflogAt(s, i) { assert s[i] == DOT || s[i] == AT; }
    if ContainsPair(s, DOT, DOT) {
      var i :| 0 <= i < |s| - 1 && s[i] == DOT && s[i + 1] == DOT;
      assert DotsAt(s, i);
    }
    if ContainsPair(s, AT, '{' as int) {
      var i :| 0 <= i < |s| - 1 && s[i] == AT && s[i + 1] == '{' as int;
      assert ReflogAt(s, i);
    }
  }

  lemma LockMeaning(s: Text)
    ensures EndsWith(s, Ascii(".lock")) <==> Breaks(s, LockSuffix)
  {
    assert Ascii(".lock") == ['.' as int, 'l' as int, 'o' as int, 'c' as int, 'k' as int];
  }

  /** The segment check reports the first rule broken, in the order they are tried. */
  lemma SegmentReports(s: Text, v: Violation)
    ensures CheckSegment(s) == Some(v) <==> Breaks(s, v) && forall w :: Breaks(s, w) ==> Priority(v) <= Priority(w)
  {
    CharReports(s);
    PairReports(s);
    LockMeaning(s);
    hide CharDefect, ContainsPair, EndsWith, FirstControl, FirstForbidden, DotsAt, ReflogAt;
    var d := CheckSegment(s);
    if d.Some? {
      assert Breaks(s, d.value);
      forall w | Breaks(s, w) ensures Priority(d.value) <= Priority(w) {}
    }
  }

  /** The name check reports an empty name, then a slash at an end, then what its first bad segment does. */
  lemma PathReports(s: Text, v: Violation)
    ensures CheckPath(s) == Some(v) <==>
      if s == [] then v == Empty
      else if s[0] == '/' as int || s[|s| - 1] == '/' as int then v == BoundarySlash
      else exists i :: FirstBad(Split(s), i, v)
  {
    hide Split, FirstDefect, SegmentDefect, CheckSegment;
    PiecesSlashFree(s);
    FirstReports(Split(s), v);
    assert FirstDefect(Split(s)) == Some(v) <==> exists i :: FirstBad(Split(s), i, v);
  }

  /** Segment `i` is the first with a defect, and reports `v`. */
  ghost predicate FirstBad(p: seq<Text>, i: int, v: Violation) {
    0 <= i < |p| && CheckSegment(p[i]) == Some(v) && forall j :: 0 <= j < i ==> ValidSegment(p[j])
  }

  lemma {:induction false} FirstReports(p: seq<Text>, v: Violation)
    requires forall i :: 0 <= i < |p| ==> SLASH !in p[i]
    ensures FirstDefect(p) == Some(v) <==> exists i :: FirstBad(p, i, v)
  {
    if p != [] {
      FirstReports(p[1..], v);
      assert CheckSegment(p[0]) == SegmentDefect(p[0]);
      if SegmentDefect(p[0]) == Some(v) { assert FirstBad(p, 0, v); }
      if i :| FirstBad(p[1..], i, v) && ValidSegment(p[0]) {
        forall j | 0 <= j < i + 1 ensures ValidSegment(p[j]) { if j > 0 { assert p[j] == p[1..][j - 1]; } }
        assert FirstBad(p, i + 1, v);
      }
      if i :| FirstBad(p, i, v) {
        if i > 0 { LaterBad(p, i, v); }
      }
    }
  }

  lemma LaterBad(p: seq<Text>, i: int, v: Violation)
    requires FirstBad(p, i, v) && i > 0
    ensures FirstBad(p[1..], i - 1, v) && ValidSegment(p[0])
  {
    forall j | 0 <= j < i - 1 ensures ValidSegment(p[1..][j]) { assert p[1..][j] == p[j + 1]; }
  }

  /** A name is valid exactly when every piece between its slashes is a valid segment. */
  lemma CheckPathMeaning(s: Text)
    ensures ValidName(s) <==> ValidPath(Split(s))
  {
    PiecesSlashFree(s);
    NoDefect(Split(s));
    if s != [] {
      SplitEnds(s);
      var r := Split(s);
      assert s[0] == SLASH ==> SegmentDefect(r[0]) == Some(Empty);
      assert s[|s| - 1] == SLASH ==> SegmentDefect(r[|r| - 1]) == Some(Empty);
      if ValidPath(r) {
        assert forall i :: 0 <= i < |r| ==> ValidSegment(r[i]);
      }
    }
    if ValidName(s) {
      forall i | 0 <= i < |Split(s)| ensures ValidSegment(Split(s)[i]) {}
    }
  }

  /** Parsing and displaying a path are inverse, both ways. */
  lemma ParseDisplay(p: Path)
    requires ValidPath(p)
    ensures NewPath(Display(p)) == Ok(p)
  {
    forall i | 0 <= i < |p| ensures SLASH !in p[i] { assert ValidSegment(p[i]); }
    SplitOfJoin(p);
    CheckPathMeaning(Join(p));
  }

  lemma DisplayParse(s: Text)
    requires NewPath(s).Ok?
    ensures ValidPath(NewPath(s).value) && Display(NewPath(s).value) == s
  {
    CheckPathMeaning(s);
    JoinOfSplit(s);
  }

  /** `join`, `child` and `join_path` skip validation, and may: the result always passes it. */
  lemma JoinPathValid(prefix: Text, p: Path)
    requires ValidName(prefix) && ValidPath(p)
    ensures ValidName(JoinPath(prefix, p))
    ensures Split(JoinPath(prefix, p)) == Split(prefix) + p
    ensures |p| == 1 ==> JoinPath(prefix, p) == Child(prefix, p[0])
  {
    ParseDisplay(p);
    CheckPathMeaning(prefix);
    SplitJoined(prefix, Join(p));
    var q := Split(prefix) + p;
    forall i | 0 <= i < |q| ensures ValidSegment(q[i]) {
      if i < |Split(prefix)| { assert ValidSegment(Split(prefix)[i]); }
    }
    CheckPathMeaning(JoinPath(prefix, p));
  }

  /** A name is under a prefix exactly when the prefix's segments strictly begin the name's. */
  lemma UnderMeansStrictPrefix(name: Text, prefix: Text)
    ensures IsUnder(name, prefix) <==> Split(prefix) < Split(name)
  {
    if IsUnder(name, prefix) {
      var s := Suffix(name, prefix).value;
      assert name == prefix + [SLASH] + s;
      SplitJoined(prefix, s);
    }
    if Split(prefix) < Split(name) {
      var rest := Split(name)[|Split(prefix)|..];
      assert Split(name) == Split(prefix) + rest;
      JoinAppend(Split(prefix), rest);
      JoinOfSplit(prefix);
      JoinOfSplit(name);
      assert name == prefix + [SLASH] + Join(rest);
    }
  }

  /** `relative_to` undoes `join_path`. */
  lemma RelativeOfJoin(prefix: Text, p: Path)
    requires ValidPath(p)
    ensures IsUnder(JoinPath(prefix, p), prefix)
    ensures RelativeTo(JoinPath(prefix, p), prefix) == Some(p)
  {
    assert JoinPath(prefix, p)[|prefix| + 1..] == Join(p);
    ParseDisplay(p);
  }

  /** `join_path` undoes `relative_to`. */
  lemma JoinOfRelative(name: Text, prefix: Text)
    requires RelativeTo(name, prefix).Some?
    ensures ValidPath(RelativeTo(name, prefix).value)
    ensures JoinPath(prefix, RelativeTo(name, prefix).value) == name
  {
    DisplayParse(Suffix(name, prefix).value);
  }

  /** A valid name that `is_under` accepts is never dropped by `relative_to`. */
  lemma UnderIsRelative(name: Text, prefix: Text)
    requires ValidName(name) && IsUnder(name, prefix)
    ensures RelativeTo(name, prefix).Some?
  {
    var s := Suffix(name, prefix).value;
    assert name == prefix + [SLASH] + s;
    SplitJoined(prefix, s);
    CheckPathMeaning(name);
    forall i | 0 <= i < |Split(s)| ensures ValidSegment(Split(s)[i]) {
      assert Split(s)[i] == Split(name)[|Split(prefix)| + i];
    }
    CheckPathMeaning(s);
  }
}
