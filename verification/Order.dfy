/** Strict total orders, lexicographic comparison, and association lists sorted by key.
    `Vec::sort`, `sort_by` and the iteration order of a `BTreeMap` are all stated with these. */
module Order {
  import opened Wrappers

  type byte = i: int | 0 <= i < 0x100

  /** A byte string. Rust text is kept as its UTF-8 bytes, whose order is the order of `str`. */
  type Text = seq<byte>

  predicate IsAscii(s: string) { forall i :: 0 <= i < |s| ==> s[i] as int < 0x80 }

  function Ascii(s: string): (t: Text)
    requires IsAscii(s)
    ensures |t| == |s| && forall i :: 0 <= i < |s| ==> t[i] == s[i] as int
  {
    seq(|s|, (i: int) requires 0 <= i < |s| => s[i] as int as byte)
  }

  ghost predicate Total<K(!new)>(lt: (K, K) -> bool) {
    && (forall a :: !lt(a, a))
    && (forall a, b :: a != b ==> lt(a, b) || lt(b, a))
    && (forall a, b, c :: lt(a, b) && lt(b, c) ==> lt(a, c))
  }

  /** Lexicographic order: a proper prefix comes first. */
  predicate Lex<K(==)>(lt: (K, K) -> bool, a: seq<K>, b: seq<K>) {
    if b == [] then false
    else if a == [] then true
    else if a[0] == b[0] then Lex(lt, a[1..], b[1..])
    else lt(a[0], b[0])
  }

  predicate ByteLess(a: byte, b: byte) { a < b }

  predicate TextLess(a: Text, b: Text) { Lex(ByteLess, a, b) }

  predicate PathLess(a: seq<Text>, b: seq<Text>) { Lex(TextLess, a, b) }

  /** The two go apart after `n` elements: there the first ends, or holds the lesser. */
  predicate Parts<K(==)>(lt: (K, K) -> bool, a: seq<K>, b: seq<K>, n: nat) {
    n < |b| && n <= |a| && a[..n] == b[..n] && (n == |a| || (a[n] != b[n] && lt(a[n], b[n])))
  }

  lemma HeadsAlike<K>(a: seq<K>, b: seq<K>, n: nat)
    requires n <= |a| && n <= |b| && a[..n] == b[..n]
    ensures n > 0 ==> a[0] == b[0]
  {
    if n > 0 { assert a[..n][0] == b[..n][0]; }
  }

  /** Which of two is less is decided where they first differ. */
  lemma {:induction false} LexParts<K(!new)>(lt: (K, K) -> bool, a: seq<K>, b: seq<K>)
    ensures Lex(lt, a, b) <==> exists n: nat :: Parts(lt, a, b, n)
  {
    if b != [] {
      if a == [] {
        assert Parts(lt, a, b, 0);
      } else if a[0] == b[0] {
        LexParts(lt, a[1..], b[1..]);
        if Lex(lt, a, b) {
          var n: nat :| Parts(lt, a[1..], b[1..], n);
          assert a[..n + 1] == [a[0]] + a[1..][..n] && b[..n + 1] == [b[0]] + b[1..][..n];
          assert Parts(lt, a, b, n + 1);
        }
        if n: nat :| Parts(lt, a, b, n) {
          assert n > 0 && a[1..][..n - 1] == a[..n][1..] && b[1..][..n - 1] == b[..n][1..];
          assert Parts(lt, a[1..], b[1..], n - 1);
        }
      } else {
        if lt(a[0], b[0]) { assert Parts(lt, a, b, 0); }
        if n: nat :| Parts(lt, a, b, n) { HeadsAlike(a, b, n); }
      }
    }
  }

  /** Byte strings, as `str` has them: the lesser ends, or holds the smaller byte, where the two part. */
  lemma TextLessMeaning(a: Text, b: Text)
    ensures TextLess(a, b) <==>
      exists n :: 0 <= n < |b| && n <= |a| && a[..n] == b[..n] && (n == |a| || a[n] < b[n])
  {
    LexParts(ByteLess, a, b);
    if TextLess(a, b) {
      var n: nat :| Parts(ByteLess, a, b, n);
    }
    if n :| 0 <= n < |b| && n <= |a| && a[..n] == b[..n] && (n == |a| || a[n] < b[n]) {
      assert Parts(ByteLess, a, b, n);
    }
  }

  /** Paths, segment by segment. */
  lemma PathLessMeaning(a: seq<Text>, b: seq<Text>)
    ensures PathLess(a, b) <==>
      exists n :: 0 <= n < |b| && n <= |a| && a[..n] == b[..n] && (n == |a| || TextLess(a[n], b[n]))
  {
    TextTotal();
    LexParts(TextLess, a, b);
    if PathLess(a, b) {
      var n: nat :| Parts(TextLess, a, b, n);
    }
    if n :| 0 <= n < |b| && n <= |a| && a[..n] == b[..n] && (n == |a| || TextLess(a[n], b[n])) {
      assert Parts(TextLess, a, b, n);
    }
  }

  lemma {:induction false} LexIrreflexive<K(!new)>(lt: (K, K) -> bool, a: seq<K>)
    requires Total(lt)
    ensures !Lex(lt, a, a)
  {
    if a != [] { LexIrreflexive(lt, a[1..]); }
  }

  lemma {:induction false} LexConnected<K(!new)>(lt: (K, K) -> bool, a: seq<K>, b: seq<K>)
    requires Total(lt) && a != b
    ensures Lex(lt, a, b) || Lex(lt, b, a)
  {
    if a != [] && b != [] && a[0] == b[0] {
      assert a[1..] != b[1..] by {
        assert a == [a[0]] + a[1..] && b == [b[0]] + b[1..];
      }
      LexConnected(lt, a[1..], b[1..]);
    }
  }

  lemma {:induction false} LexTransitive<K(!new)>(lt: (K, K) -> bool, a: seq<K>, b: seq<K>, c: seq<K>)
    requires Total(lt) && Lex(lt, a, b) && Lex(lt, b, c)
    ensures Lex(lt, a, c)
  {
    if a != [] && a[0] == b[0] && b[0] == c[0] {
      LexTransitive(lt, a[1..], b[1..], c[1..]);
    }
  }

  lemma TextTotal()
    ensures Total(TextLess)
  {
    assert Total(ByteLess);
    forall a: Text ensures !TextLess(a, a) { LexIrreflexive(ByteLess, a); }
    forall a: Text, b: Text | a != b ensures TextLess(a, b) || TextLess(b, a) { LexConnected(ByteLess, a, b); }
    forall a: Text, b: Text, c: Text | TextLess(a, b) && TextLess(b, c) ensures TextLess(a, c) {
      LexTransitive(ByteLess, a, b, c);
    }
  }

  lemma PathTotal()
    ensures Total(PathLess)
  {
    TextTotal();
    forall a: seq<Text> ensures !PathLess(a, a) { LexIrreflexive(TextLess, a); }
    forall a: seq<Text>, b: seq<Text> | a != b ensures PathLess(a, b) || PathLess(b, a) {
      LexConnected(TextLess, a, b);
    }
    forall a: seq<Text>, b: seq<Text>, c: seq<Text> | PathLess(a, b) && PathLess(b, c) ensures PathLess(a, c) {
      LexTransitive(TextLess, a, b, c);
    }
  }

  lemma Assoc<T>(a: seq<T>, b: seq<T>, c: seq<T>)
    ensures (a + b) + c == a + (b + c)
  {
  }

  // ---- association lists ----

  ghost predicate Ascending<K, V>(lt: (K, K) -> bool, s: seq<(K, V)>) {
    forall i, j :: 0 <= i < j < |s| ==> lt(s[i].0, s[j].0)
  }

  ghost predicate Weakly<K, V>(lt: (K, K) -> bool, s: seq<(K, V)>) {
    forall i, j :: 0 <= i < j < |s| ==> !lt(s[j].0, s[i].0)
  }

  ghost predicate DistinctKeys<K, V>(s: seq<(K, V)>) {
    forall i, j :: 0 <= i < j < |s| ==> s[i].0 != s[j].0
  }

  /** Place `x` after every element whose key is not above its own. */
  function Insert<K(!new), V(!new)>(lt: (K, K) -> bool, s: seq<(K, V)>, x: (K, V)): (r: seq<(K, V)>)
    ensures |r| == |s| + 1 && forall y :: y in r <==> y in s || y == x
  {
    if s == [] then [x]
    else if lt(x.0, s[0].0) then [x] + s
    else [s[0]] + Insert(lt, s[1..], x)
  }

  /** The stable sort by key, which is what `sort` and `sort_by` compute. */
  function Sort<K(!new), V(!new)>(lt: (K, K) -> bool, s: seq<(K, V)>): (r: seq<(K, V)>)
    ensures |r| == |s| && forall y :: y in r <==> y in s
  {
    if s == [] then []
    else
      assert s == s[..|s| - 1] + [s[|s| - 1]];
      Insert(lt, Sort(lt, s[..|s| - 1]), s[|s| - 1])
  }

  /** The value of the first pair with key `k`. */
  function First<K(==), V>(s: seq<(K, V)>, k: K): Option<V> {
    if s == [] then None
    else if s[0].0 == k then Some(s[0].1)
    else First(s[1..], k)
  }

  lemma {:induction false} InsertWeakly<K(!new), V(!new)>(lt: (K, K) -> bool, s: seq<(K, V)>, x: (K, V))
    requires Total(lt) && Weakly(lt, s)
    ensures Weakly(lt, Insert(lt, s, x))
  {
    if s != [] && !lt(x.0, s[0].0) {
      InsertWeakly(lt, s[1..], x);
      var r := Insert(lt, s[1..], x);
      forall j | 0 <= j < |r| ensures !lt(r[j].0, s[0].0) {
        assert r[j] in r;
        if r[j] in s[1..] {
          var i :| 0 <= i < |s[1..]| && s[1..][i] == r[j];
          assert s[i + 1] == r[j];
        }
      }
    }
  }

  lemma {:induction false} SortWeakly<K(!new), V(!new)>(lt: (K, K) -> bool, s: seq<(K, V)>)
    requires Total(lt)
    ensures Weakly(lt, Sort(lt, s))
  {
    if s != [] {
      SortWeakly(lt, s[..|s| - 1]);
      InsertWeakly(lt, Sort(lt, s[..|s| - 1]), s[|s| - 1]);
    }
  }

  lemma {:induction false} InsertAscending<K(!new), V(!new)>(lt: (K, K) -> bool, s: seq<(K, V)>, x: (K, V))
    requires Total(lt) && Ascending(lt, s) && forall y <- s :: y.0 != x.0
    ensures Ascending(lt, Insert(lt, s, x))
  {
    if s != [] && !lt(x.0, s[0].0) {
      assert s[0] in s;
      InsertAscending(lt, s[1..], x);
      var r := Insert(lt, s[1..], x);
      forall j | 0 <= j < |r| ensures lt(s[0].0, r[j].0) {
        assert r[j] in r;
        if r[j] in s[1..] {
          var i :| 0 <= i < |s[1..]| && s[1..][i] == r[j];
          assert s[i + 1] == r[j];
        }
      }
    }
  }

  lemma {:induction false} SortAscending<K(!new), V(!new)>(lt: (K, K) -> bool, s: seq<(K, V)>)
    requires Total(lt) && DistinctKeys(s)
    ensures Ascending(lt, Sort(lt, s))
  {
    if s != [] {
      var front, x := s[..|s| - 1], s[|s| - 1];
      SortAscending(lt, front);
      forall y <- Sort(lt, front) ensures y.0 != x.0 {
        var i :| 0 <= i < |front| && front[i] == y;
      }
      InsertAscending(lt, Sort(lt, front), x);
    }
  }

  lemma {:induction false} InsertAdds<K(!new), V(!new)>(lt: (K, K) -> bool, s: seq<(K, V)>, x: (K, V))
    ensures multiset(Insert(lt, s, x)) == multiset(s) + multiset{x}
  {
    if s != [] && !lt(x.0, s[0].0) {
      InsertAdds(lt, s[1..], x);
      assert s == [s[0]] + s[1..];
    }
  }

  /** Sorting rearranges: every pair is kept, as often as it was there. */
  lemma {:induction false} SortPermutes<K(!new), V(!new)>(lt: (K, K) -> bool, s: seq<(K, V)>)
    ensures multiset(Sort(lt, s)) == multiset(s)
  {
    if s != [] {
      SortPermutes(lt, s[..|s| - 1]);
      InsertAdds(lt, Sort(lt, s[..|s| - 1]), s[|s| - 1]);
      assert s == s[..|s| - 1] + [s[|s| - 1]];
    }
  }

  lemma {:induction false} InsertedApart<K(!new), V(!new)>(lt: (K, K) -> bool, s: seq<(K, V)>, x: (K, V))
    requires Total(lt) && Ascending(lt, Insert(lt, s, x))
    ensures Ascending(lt, s) && forall y <- s :: y.0 != x.0
  {
    if s != [] {
      var r := Insert(lt, s, x);
      if lt(x.0, s[0].0) {
        forall i | 0 <= i < |s| ensures r[i + 1] == s[i] && lt(x.0, s[i].0) { assert lt(r[0].0, r[i + 1].0); }
      } else {
        assert r[1..] == Insert(lt, s[1..], x);
        InsertedApart(lt, s[1..], x);
        assert x in r[1..];
        var k :| 0 <= k < |r[1..]| && r[1..][k] == x;
        assert lt(r[0].0, r[k + 1].0);
        forall i | 0 < i < |s| ensures lt(s[0].0, s[i].0) {
          assert s[1..][i - 1] in r[1..];
          var j :| 0 <= j < |r[1..]| && r[1..][j] == s[i];
          assert lt(r[0].0, r[j + 1].0);
        }
        forall i, j | 0 <= i < j < |s| ensures lt(s[i].0, s[j].0) {
          if i > 0 { assert s[1..][i - 1] == s[i] && s[1..][j - 1] == s[j]; }
        }
      }
    }
  }

  /** Only distinct keys sort to a strictly ascending list. */
  lemma {:induction false} SortedApart<K(!new), V(!new)>(lt: (K, K) -> bool, s: seq<(K, V)>)
    requires Total(lt) && Ascending(lt, Sort(lt, s))
    ensures DistinctKeys(s)
  {
    if s != [] {
      var n := |s| - 1;
      InsertedApart(lt, Sort(lt, s[..n]), s[n]);
      SortedApart(lt, s[..n]);
      forall i, j | 0 <= i < j < |s| ensures s[i].0 != s[j].0 {
        assert s[i] == s[..n][i] && s[i] in Sort(lt, s[..n]);
        if j < n { assert s[..n][i].0 != s[..n][j].0; }
      }
    }
  }

  /** No two neighbours with one key: the sorted list ascends strictly. */
  lemma {:induction false} WeaklyAscends<K(!new), V(!new)>(lt: (K, K) -> bool, s: seq<(K, V)>, i: nat, j: nat)
    requires Total(lt) && Weakly(lt, s) && i < j < |s|
    requires forall k :: 0 <= k < |s| - 1 ==> s[k].0 != s[k + 1].0
    ensures lt(s[i].0, s[j].0)
    decreases j
  {
    assert lt(s[j - 1].0, s[j].0) by { assert s[j - 1].0 != s[(j - 1) + 1].0; }
    if i < j - 1 { WeaklyAscends(lt, s, i, j - 1); }
  }

  /** The least key of an ascending list is its first. */
  lemma HeadLeast<K(!new), V(!new)>(lt: (K, K) -> bool, s: seq<(K, V)>, x: (K, V))
    requires Total(lt) && Ascending(lt, s) && x in s
    ensures x == s[0] || lt(s[0].0, x.0)
    ensures x in s[1..] <==> x != s[0]
  {
    var i :| 0 <= i < |s| && s[i] == x;
    if i > 0 { assert s[1..][i - 1] == x; }
    if x in s[1..] {
      var m :| 0 <= m < |s[1..]| && s[1..][m] == x;
      assert s[m + 1] == x && lt(s[0].0, x.0);
    }
  }

  /** Two ascending lists of the same pairs are the same list. */
  lemma {:induction false} AscendingUnique<K(!new), V(!new)>(lt: (K, K) -> bool, a: seq<(K, V)>, b: seq<(K, V)>)
    requires Total(lt) && Ascending(lt, a) && Ascending(lt, b)
    requires forall x :: x in a <==> x in b
    ensures a == b
  {
    assert (a == []) == (b == []) by {
      if |a| > 0 { assert a[0] in a; }
      if |b| > 0 { assert b[0] in b; }
    }
    if a != [] {
      assert a[0] in b && b[0] in a;
      HeadLeast(lt, b, a[0]);
      HeadLeast(lt, a, b[0]);
      forall x ensures x in a[1..] <==> x in b[1..] {
        if x in a { HeadLeast(lt, a, x); HeadLeast(lt, b, x); }
      }
      AscendingUnique(lt, a[1..], b[1..]);
      assert a == [a[0]] + a[1..] && b == [b[0]] + b[1..];
    }
  }

  /** Sorting any rearrangement of an ascending list gives that list back. */
  lemma SortRecovers<K(!new), V(!new)>(lt: (K, K) -> bool, s: seq<(K, V)>, sorted: seq<(K, V)>)
    requires Total(lt) && Ascending(lt, sorted) && DistinctKeys(s)
    requires forall x :: x in s <==> x in sorted
    ensures Sort(lt, s) == sorted
  {
    SortAscending(lt, s);
    AscendingUnique(lt, Sort(lt, s), sorted);
  }

  predicate FirstAt<K(==), V(==)>(s: seq<(K, V)>, x: (K, V), i: nat) {
    i < |s| && s[i] == x && forall j :: 0 <= j < i ==> s[j].0 != x.0
  }

  lemma {:induction false} FirstMeaning<K(!new), V(!new)>(s: seq<(K, V)>, k: K, v: V)
    ensures First(s, k) == Some(v) <==> exists i: nat :: FirstAt(s, (k, v), i)
  {
    if s != [] {
      if s[0].0 == k {
        if s[0].1 == v { assert FirstAt(s, (k, v), 0); }
      } else {
        FirstMeaning(s[1..], k, v);
        if i: nat :| FirstAt(s[1..], (k, v), i) {
          forall j | 0 <= j < i + 1 ensures s[j].0 != k {
            if j > 0 { assert s[j] == s[1..][j - 1]; }
          }
          assert FirstAt(s, (k, v), i + 1);
        }
        if i: nat :| FirstAt(s, (k, v), i) {
          forall j | 0 <= j < i - 1 ensures s[1..][j].0 != k { assert s[1..][j] == s[j + 1]; }
          assert FirstAt(s[1..], (k, v), i - 1);
        }
      }
    }
  }

  lemma {:induction false} FirstOfInsert<K(!new), V(!new)>(lt: (K, K) -> bool, s: seq<(K, V)>, x: (K, V), k: K)
    requires Total(lt) && Weakly(lt, s)
    ensures First(Insert(lt, s, x), k) ==
            if First(s, k).Some? then First(s, k) else if x.0 == k then Some(x.1) else None
  {
    if s != [] {
      if lt(x.0, s[0].0) {
        if First(s, k).Some? && x.0 == k { FirstIn(s, k); }
        assert ([x] + s)[1..] == s;
      } else {
        FirstOfInsert(lt, s[1..], x, k);
      }
    }
  }

  lemma {:induction false} FirstIn<K(!new), V(!new)>(s: seq<(K, V)>, k: K)
    requires First(s, k).Some?
    ensures exists i :: 0 <= i < |s| && s[i].0 == k
  {
    if s[0].0 != k {
      FirstIn(s[1..], k);
      var i :| 0 <= i < |s[1..]| && s[1..][i].0 == k;
      assert s[i + 1].0 == k;
    }
  }

  lemma {:induction false} FirstOfSnoc<K(!new), V(!new)>(s: seq<(K, V)>, x: (K, V), k: K)
    ensures First(s + [x], k) == if First(s, k).Some? then First(s, k) else if x.0 == k then Some(x.1) else None
  {
    if s != [] {
      assert (s + [x])[1..] == s[1..] + [x];
      FirstOfSnoc(s[1..], x, k);
    }
  }

  /** Stability: sorting does not change which pair with a given key comes first. */
  lemma {:induction false} SortKeepsFirst<K(!new), V(!new)>(lt: (K, K) -> bool, s: seq<(K, V)>, k: K)
    requires Total(lt)
    ensures First(Sort(lt, s), k) == First(s, k)
  {
    if s != [] {
      var front, x := s[..|s| - 1], s[|s| - 1];
      SortKeepsFirst(lt, front, k);
      SortWeakly(lt, front);
      FirstOfInsert(lt, Sort(lt, front), x, k);
      FirstOfSnoc(front, x, k);
      assert s == front + [x];
    }
  }

  // ---- ordered maps ----

  ghost predicate IsLeast<K(!new)>(lt: (K, K) -> bool, s: set<K>, k: K) {
    k in s && forall j <- s :: j == k || lt(k, j)
  }

  lemma {:induction false} LeastExists<K(!new)>(lt: (K, K) -> bool, s: set<K>) returns (k: K)
    requires Total(lt) && s != {}
    ensures IsLeast(lt, s, k)
  {
    k :| k in s;
    if s != {k} {
      var m := LeastExists(lt, s - {k});
      if lt(m, k) {
        k := m;
      } else {
        forall j <- s ensures j == k || lt(k, j) {
          if j != k && j != m { assert lt(m, j); }
        }
      }
    }
  }

  /** The pairs of a `BTreeMap` in iteration order. */
  ghost function Listing<K(!new), V(!new)>(lt: (K, K) -> bool, m: map<K, V>): (s: seq<(K, V)>)
    requires Total(lt)
    ensures forall x :: x in s <==> x.0 in m && m[x.0] == x.1
    ensures Ascending(lt, s)
    decreases |m|
  {
    if m == map[] then []
    else
      assert exists k :: IsLeast(lt, m.Keys, k) by { var k := LeastExists(lt, m.Keys); }
      var k :| IsLeast(lt, m.Keys, k);
      var rest := map j | j in m && j != k :: m[j];
      assert rest.Keys == m.Keys - {k};
      [(k, m[k])] + Listing(lt, rest)
  }
}
