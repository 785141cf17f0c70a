/** The relational operators the queries are built from: enumerating a table, WHERE as a
    filter, ORDER BY as a sort under a total preorder, LIMIT as a prefix, DISTINCT. */
module Sequences {
  import opened Wrappers

  /** An ORDER BY key: any two rows compare, and the comparison is transitive. */
  ghost predicate TotalPreorder<T(!new)>(le: (T, T) -> bool)
  {
    && (forall a, b :: le(a, b) || le(b, a))
    && (forall a, b, c :: le(a, b) && le(b, c) ==> le(a, c))
  }

  ghost predicate SortedBy<T>(s: seq<T>, le: (T, T) -> bool)
  {
    forall i, j :: 0 <= i < j < |s| ==> le(s[i], s[j])
  }

  lemma SortedCons<T>(a: T, t: seq<T>, le: (T, T) -> bool)
    requires SortedBy(t, le)
    requires forall j :: 0 <= j < |t| ==> le(a, t[j])
    ensures SortedBy([a] + t, le)
  {
    var r := [a] + t;
    forall i, j | 0 <= i < j < |r| ensures le(r[i], r[j]) {
      assert r[j] == t[j - 1];
      if i > 0 { assert r[i] == t[i - 1]; }
    }
  }

  lemma HeadBelowTail<T(!new)>(s: seq<T>, le: (T, T) -> bool)
    requires s != [] && SortedBy(s, le)
    ensures forall y :: y in multiset(s[1..]) ==> le(s[0], y)
  {
    forall y | y in multiset(s[1..]) ensures le(s[0], y) {
      assert y in s[1..];
      var k :| 0 <= k < |s[1..]| && s[1..][k] == y;
      assert s[k + 1] == y;
    }
  }

  lemma SortedTail<T>(s: seq<T>, le: (T, T) -> bool)
    requires s != [] && SortedBy(s, le)
    ensures SortedBy(s[1..], le)
  {
    forall i, j | 0 <= i < j < |s[1..]| ensures le(s[1..][i], s[1..][j]) {
      assert s[1..][i] == s[i + 1] && s[1..][j] == s[j + 1];
    }
  }

  lemma ConsMultiset<T>(s: seq<T>)
    requires s != []
    ensures multiset(s) == multiset(s[1..]) + multiset{s[0]}
  {
    assert s == [s[0]] + s[1..];
  }

  /** Placing `x` before a sorted sequence it does not exceed keeps it sorted. */
  lemma InsertFront<T(!new)>(x: T, s: seq<T>, le: (T, T) -> bool)
    requires TotalPreorder(le) && SortedBy(s, le) && s != [] && le(x, s[0])
    ensures SortedBy([x] + s, le)
  {
    forall j | 0 <= j < |s| ensures le(x, s[j]) {
      if j > 0 { assert le(s[0], s[j]); }
    }
    SortedCons(x, s, le);
  }

  /** Keeping the head of `s` in front of a sorted rearrangement of its tail and `x` keeps the
      result sorted, when `x` comes after the head. */
  lemma InsertBehind<T(!new)>(x: T, s: seq<T>, t: seq<T>, le: (T, T) -> bool)
    requires TotalPreorder(le) && SortedBy(s, le) && s != [] && !le(x, s[0])
    requires SortedBy(t, le) && multiset(t) == multiset(s[1..]) + multiset{x}
    ensures SortedBy([s[0]] + t, le)
    ensures multiset([s[0]] + t) == multiset(s) + multiset{x}
  {
    HeadBelowTail(s, le);
    assert le(s[0], x);
    forall j | 0 <= j < |t| ensures le(s[0], t[j]) {
      assert t[j] in multiset(t);
    }
    SortedCons(s[0], t, le);
    ConsMultiset(s);
  }

  function Insert<T(!new)>(x: T, s: seq<T>, le: (T, T) -> bool): (r: seq<T>)
    requires TotalPreorder(le) && SortedBy(s, le)
    ensures multiset(r) == multiset(s) + multiset{x}
    ensures SortedBy(r, le)
  {
    if s == [] then [x]
    else if le(x, s[0]) then
      InsertFront(x, s, le);
      [x] + s
    else
      SortedTail(s, le);
      var t := Insert(x, s[1..], le);
      InsertBehind(x, s, t, le);
      [s[0]] + t
  }

  lemma SameLength<T>(r: seq<T>, s: seq<T>)
    requires multiset(r) == multiset(s)
    ensures |r| == |s|
  {
    assert |multiset(r)| == |r|;
  }

  /** ORDER BY: a sorted permutation of the rows (insertion sort; ties keep no particular order). */
  function SortBy<T(!new)>(s: seq<T>, le: (T, T) -> bool): (r: seq<T>)
    requires TotalPreorder(le)
    ensures |r| == |s| && multiset(r) == multiset(s)
    ensures SortedBy(r, le)
  {
    if s == [] then []
    else
      var r := Insert(s[0], SortBy(s[1..], le), le);
      ConsMultiset(s);
      SameLength(r, s);
      r
  }

  lemma SortedMember<T(!new)>(s: seq<T>, le: (T, T) -> bool, x: T)
    requires TotalPreorder(le) && x in SortBy(s, le)
    ensures x in s
  {
    assert x in multiset(SortBy(s, le));
  }

  /** WHERE: the rows satisfying `p`, each exactly as often as in `s`, in their original order. */
  function Filter<T(!new)>(s: seq<T>, p: T -> bool): (r: seq<T>)
    ensures forall x :: multiset(r)[x] == if p(x) then multiset(s)[x] else 0
    ensures forall i :: 0 <= i < |r| ==> p(r[i])
    ensures |r| <= |s|
  {
    if s == [] then []
    else
      var t := Filter(s[1..], p);
      assert s == [s[0]] + s[1..];
      if p(s[0]) then [s[0]] + t else t
  }

  /** LIMIT n on a result that is already ordered. */
  function Take<T>(s: seq<T>, n: nat): (r: seq<T>)
    ensures |r| <= n && |r| <= |s| && (|r| == n || |r| == |s|)
    ensures r == s[..|r|]
  {
    if n <= |s| then s[..n] else s
  }

  /** Lexicographic order on strings by code point. */
  predicate StrLe(a: string, b: string)
  {
    if a == [] then true
    else if b == [] then false
    else if a[0] != b[0] then a[0] < b[0]
    else StrLe(a[1..], b[1..])
  }

  lemma {:induction false} StrLeTotal(a: string, b: string)
    ensures StrLe(a, b) || StrLe(b, a)
  {
    if a != [] && b != [] && a[0] == b[0] {
      StrLeTotal(a[1..], b[1..]);
    }
  }

  lemma {:induction false} StrLeTransitive(a: string, b: string, c: string)
    requires StrLe(a, b) && StrLe(b, c)
    ensures StrLe(a, c)
  {
    if a != [] && b != [] && c != [] && a[0] == b[0] && b[0] == c[0] {
      StrLeTransitive(a[1..], b[1..], c[1..]);
    }
  }

  lemma {:induction false} StrLeAntisymmetric(a: string, b: string)
    requires StrLe(a, b) && StrLe(b, a)
    ensures a == b
  {
    if a != [] && b != [] {
      StrLeAntisymmetric(a[1..], b[1..]);
      assert a == [a[0]] + a[1..] && b == [b[0]] + b[1..];
    }
  }

  lemma StrLeIsTotalPreorder()
    ensures TotalPreorder(StrLe)
  {
    forall a, b ensures StrLe(a, b) || StrLe(b, a) { StrLeTotal(a, b); }
    forall a, b, c | StrLe(a, b) && StrLe(b, c) ensures StrLe(a, c) { StrLeTransitive(a, b, c); }
  }

  lemma {:induction false} MinExists(s: set<int>)
    requires s != {}
    ensures exists m :: m in s && forall x :: x in s ==> m <= x
    decreases |s|
  {
    var x := PickOne(s);
    if s != {x} {
      var s' := s - {x};
      MinExists(s');
      var m :| m in s' && forall y :: y in s' ==> m <= y;
      var best := if x < m then x else m;
      assert forall y :: y in s ==> y == x || y in s';
      assert best in s && forall y :: y in s ==> best <= y;
    } else {
      assert x in s && forall y :: y in s ==> x <= y;
    }
  }

  lemma NoElementEmpty(s: set<int>)
    requires forall y :: y !in s
    ensures s == {}
  {
    assert forall y :: y in s <==> y in {};
  }

  lemma PickOne(s: set<int>) returns (x: int)
    requires s != {}
    ensures x in s
  {
    if forall y :: y !in s {
      NoElementEmpty(s);
      assert false;
    }
    x :| x in s;
  }

  function MinOf(s: set<int>): (m: int)
    requires s != {}
    ensures m in s && forall x :: x in s ==> m <= x
  {
    MinExists(s);
    var m :| m in s && forall x :: x in s ==> m <= x;
    m
  }

  /** The keys of a table in ascending order. */
  function SortedKeys(s: set<int>): (r: seq<int>)
    ensures |r| == |s|
    ensures forall i :: 0 <= i < |r| ==> r[i] in s
    ensures forall k :: k in s ==> k in r
    ensures forall i, j :: 0 <= i < j < |r| ==> r[i] < r[j]
    decreases |s|
  {
    if s == {} then []
    else
      var k := MinOf(s);
      assert |s - {k}| == |s| - 1;
      var tail := SortedKeys(s - {k});
      KeysCons(s, k, tail);
      [k] + tail
  }

  lemma KeysCons(s: set<int>, k: int, tail: seq<int>)
    requires k in s && forall x :: x in s ==> k <= x
    requires forall i :: 0 <= i < |tail| ==> tail[i] in s - {k}
    requires forall x :: x in s - {k} ==> x in tail
    requires forall i, j :: 0 <= i < j < |tail| ==> tail[i] < tail[j]
    ensures var r := [k] + tail;
      && (forall i :: 0 <= i < |r| ==> r[i] in s)
      && (forall x :: x in s ==> x in r)
      && (forall i, j :: 0 <= i < j < |r| ==> r[i] < r[j])
  {
    var r := [k] + tail;
    forall i, j | 0 <= i < j < |r| ensures r[i] < r[j] {
      assert r[j] == tail[j - 1];
      if i > 0 { assert r[i] == tail[i - 1]; }
      else { assert tail[j - 1] in s - {k}; }
    }
  }

  /** A table scan: the rows of a table in ascending primary-key order. */
  function Rows<V>(m: map<int, V>): (r: seq<(int, V)>)
    ensures |r| == |m|
    ensures forall i :: 0 <= i < |r| ==> r[i].0 in m && m[r[i].0] == r[i].1
    ensures forall k :: k in m ==> (k, m[k]) in r
    ensures forall i, j :: 0 <= i < j < |r| ==> r[i].0 < r[j].0
  {
    var keys := SortedKeys(m.Keys);
    var r := RowsAt(m, keys);
    RowsOfKeys(m, keys, r);
    r
  }

  /** The rows of the given keys, in the order of the keys. */
  function RowsAt<V>(m: map<int, V>, keys: seq<int>): (r: seq<(int, V)>)
    requires forall i :: 0 <= i < |keys| ==> keys[i] in m
    ensures |r| == |keys| && forall i :: 0 <= i < |keys| ==> r[i] == (keys[i], m[keys[i]])
  {
    if keys == [] then [] else [(keys[0], m[keys[0]])] + RowsAt(m, keys[1..])
  }

  lemma RowsOfKeys<V>(m: map<int, V>, keys: seq<int>, r: seq<(int, V)>)
    requires |keys| == |m|
    requires forall i :: 0 <= i < |keys| ==> keys[i] in m
    requires forall k :: k in m ==> k in keys
    requires forall i, j :: 0 <= i < j < |keys| ==> keys[i] < keys[j]
    requires |r| == |keys| && forall i :: 0 <= i < |keys| ==> r[i] == (keys[i], m[keys[i]])
    ensures |r| == |m|
    ensures forall i :: 0 <= i < |r| ==> r[i].0 in m && m[r[i].0] == r[i].1
    ensures forall k :: k in m ==> (k, m[k]) in r
    ensures forall i, j :: 0 <= i < j < |r| ==> r[i].0 < r[j].0
  {
    forall k | k in m ensures (k, m[k]) in r {
      var i :| 0 <= i < |keys| && keys[i] == k;
      assert r[i] == (k, m[k]);
    }
  }

  /** In a sequence without repeats every element occurs once. */
  lemma {:induction false} DistinctMultiplicity<T>(s: seq<T>, x: T)
    requires forall i, j :: 0 <= i < j < |s| ==> s[i] != s[j]
    ensures multiset(s)[x] == if x in s then 1 else 0
  {
    if s != [] {
      assert s == [s[0]] + s[1..];
      DistinctMultiplicity(s[1..], x);
      if x == s[0] {
        forall j | 0 <= j < |s[1..]| ensures s[1..][j] != x {
          assert s[1..][j] == s[j + 1];
        }
      }
    }
  }

  /** A table scan yields each row exactly once. */
  lemma RowsMultiplicity<V>(m: map<int, V>, p: (int, V))
    ensures multiset(Rows(m))[p] == if p.0 in m && m[p.0] == p.1 then 1 else 0
  {
    var r := Rows(m);
    DistinctMultiplicity(r, p);
    if p in r {
      var i :| 0 <= i < |r| && r[i] == p;
    }
  }

  /** A filtered table scan yields each matching row exactly once and nothing else. */
  lemma FilterRows<V(!new)>(m: map<int, V>, p: ((int, V)) -> bool, x: (int, V))
    ensures multiset(Filter(Rows(m), p))[x] == if x.0 in m && m[x.0] == x.1 && p(x) then 1 else 0
    ensures x in Filter(Rows(m), p) <==> x.0 in m && m[x.0] == x.1 && p(x)
  {
    RowsMultiplicity(m, x);
    assert x in Filter(Rows(m), p) <==> x in multiset(Filter(Rows(m), p));
  }

  /** The keys the rows carry. */
  function KeysOf<V(==)>(r: seq<(int, V)>): set<int>
  {
    set x | x in r :: x.0
  }

  /** The keys whose stored row satisfies `p`. */
  function MatchingKeys<V>(m: map<int, V>, p: ((int, V)) -> bool): set<int>
  {
    set k | k in m && p((k, m[k]))
  }

  /** Rows with pairwise distinct keys have as many keys as rows. */
  lemma {:induction false} KeysCount<V>(r: seq<(int, V)>)
    requires forall i, j :: 0 <= i < j < |r| ==> r[i].0 != r[j].0
    ensures |KeysOf(r)| == |r|
  {
    if r != [] {
      KeysOfCons(r);
      KeysCount(r[1..]);
    }
  }

  lemma KeysOfCons<V>(r: seq<(int, V)>)
    requires r != []
    requires forall i, j :: 0 <= i < j < |r| ==> r[i].0 != r[j].0
    ensures KeysOf(r) == {r[0].0} + KeysOf(r[1..]) && r[0].0 !in KeysOf(r[1..])
  {
    var t := r[1..];
    assert r == [r[0]] + t;
  }

  /** Rows, one per key, that are exactly the stored rows satisfying `p` number as many as
      those keys. */
  lemma MatchingCount<V>(m: map<int, V>, p: ((int, V)) -> bool, f: seq<(int, V)>)
    requires forall x :: x in f <==> (x.0 in m && m[x.0] == x.1 && p(x))
    requires forall i, j :: 0 <= i < j < |f| ==> f[i].0 != f[j].0
    ensures |f| == |MatchingKeys(m, p)|
  {
    KeysCount(f);
    forall k ensures k in KeysOf(f) <==> k in m && p((k, m[k])) {
      if k in m && p((k, m[k])) {
        assert (k, m[k]) in f;
      }
    }
    assert KeysOf(f) == MatchingKeys(m, p);
  }

  /** A filtered table scan has one row per key whose row matches. */
  lemma FilterRowsCount<V(!new)>(m: map<int, V>, p: ((int, V)) -> bool)
    ensures |Filter(Rows(m), p)| == |MatchingKeys(m, p)|
  {
    var f := Filter(Rows(m), p);
    FilteredKeysDistinct(m, p);
    FilteredMembers(m, p);
    MatchingCount(m, p, f);
  }

  lemma FilteredMembers<V(!new)>(m: map<int, V>, p: ((int, V)) -> bool)
    ensures forall x :: x in Filter(Rows(m), p) <==> (x.0 in m && m[x.0] == x.1 && p(x))
  {
    forall x ensures x in Filter(Rows(m), p) <==> (x.0 in m && m[x.0] == x.1 && p(x)) {
      FilterRows(m, p, x);
    }
  }

  lemma FilteredKeysDistinct<V(!new)>(m: map<int, V>, p: ((int, V)) -> bool)
    ensures forall i, j :: 0 <= i < j < |Filter(Rows(m), p)| ==> Filter(Rows(m), p)[i].0 != Filter(Rows(m), p)[j].0
  {
    var f := Filter(Rows(m), p);
    forall i, j | 0 <= i < j < |f| ensures f[i].0 != f[j].0 {
      if f[i].0 == f[j].0 {
        FilterRows(m, p, f[i]);
        FilterRows(m, p, f[j]);
        assert f[i] == f[j];
        DuplicateCount(f, i, j);
        assert false;
      }
    }
  }

  /** DISTINCT: the first occurrence of every row, in order. */
  function Distinct<T(==,!new)>(s: seq<T>): (r: seq<T>)
    ensures forall x :: x in r <==> x in s
    ensures forall i, j :: 0 <= i < j < |r| ==> r[i] != r[j]
  {
    if s == [] then []
    else
      var t := Distinct(s[..|s| - 1]);
      assert s == s[..|s| - 1] + [s[|s| - 1]];
      if s[|s| - 1] in t then t else t + [s[|s| - 1]]
  }

  /** An element at two positions occurs at least twice. */
  lemma DuplicateCount<T>(s: seq<T>, i: int, j: int)
    requires 0 <= i < j < |s| && s[i] == s[j]
    ensures multiset(s)[s[i]] >= 2
  {
    assert s == s[..i] + [s[i]] + s[i + 1..j] + [s[j]] + s[j + 1..];
  }

  /** A rearrangement of a sequence without repeats has none either. */
  lemma PermutationDistinct<T>(s: seq<T>, r: seq<T>)
    requires multiset(r) == multiset(s)
    requires forall i, j :: 0 <= i < j < |s| ==> s[i] != s[j]
    ensures forall i, j :: 0 <= i < j < |r| ==> r[i] != r[j]
  {
    forall i, j | 0 <= i < j < |r| ensures r[i] != r[j] {
      DistinctMultiplicity(s, r[i]);
      if r[i] == r[j] {
        DuplicateCount(r, i, j);
      }
    }
  }

  function Sum(s: seq<int>): int
  {
    if s == [] then 0 else s[0] + Sum(s[1..])
  }

  lemma SortedSplit<T>(s: seq<T>, le: (T, T) -> bool, k: nat)
    requires SortedBy(s, le) && k <= |s|
    ensures SortedBy(s[..k], le)
    ensures forall x, y :: x in s[..k] && y in s[k..] ==> le(x, y)
  {
    forall x, y | x in s[..k] && y in s[k..] ensures le(x, y) {
      var i :| 0 <= i < k && s[..k][i] == x;
      var j :| 0 <= j < |s| - k && s[k..][j] == y;
      assert s[i] == x && s[k + j] == y;
    }
  }

  /** ORDER BY ... LIMIT n, characterised without reference to how ties are broken: the result
      has min(n, |s|) rows drawn from `s`, is ordered, and no row left out comes before a row kept. */
  lemma {:induction false} TopK<T(!new)>(s: seq<T>, le: (T, T) -> bool, n: nat)
    requires TotalPreorder(le)
    ensures var r := Take(SortBy(s, le), n);
      && |r| == Min(n, |s|)
      && multiset(r) <= multiset(s)
      && SortedBy(r, le)
      && (forall x, y :: x in r && y in multiset(s) - multiset(r) ==> le(x, y))
  {
    var sorted := SortBy(s, le);
    var r := Take(sorted, n);
    var k := |r|;
    var rest := sorted[k..];
    assert r == sorted[..k];
    assert sorted == r + rest;
    assert multiset(sorted) == multiset(r) + multiset(rest);
    assert multiset(s) - multiset(r) == multiset(rest);
    SortedSplit(sorted, le, k);
    forall y | y in multiset(s) - multiset(r) ensures y in rest {
      assert y in multiset(rest);
    }
  }
}
