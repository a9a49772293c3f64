/** Ordering utilities shared by the blender, the collaborative filter and
    the goal pipeline: a stable descending sort by a real-valued key (what
    Python's `list.sort(reverse=True)` and pandas' descending `sort_values`
    do), and the ascending list of distinct integer keys that a pandas
    `groupby` or `pivot_table` index holds. */
module Sorting {

  /** Keys never increase from left to right. */
  ghost predicate SortedBy<T>(s: seq<T>, key: T -> real)
  {
    forall i, j :: 0 <= i < j < |s| ==> key(s[i]) >= key(s[j])
  }

  /** The elements of `s` whose key is exactly `v`, in their order in `s`.
      A sort is stable when it keeps every such subsequence unchanged. */
  function WithKey<T>(s: seq<T>, key: T -> real, v: real): seq<T>
  {
    if |s| == 0 then []
    else (if key(s[0]) == v then [s[0]] else []) + WithKey(s[1..], key, v)
  }

  lemma WithKeyCons<T>(x: T, s: seq<T>, key: T -> real, v: real)
    ensures WithKey([x] + s, key, v) == (if key(x) == v then [x] else []) + WithKey(s, key, v)
  {
    assert ([x] + s)[0] == x;
    assert ([x] + s)[1..] == s;
  }

  /** Places `x` in front of the first element whose key is not larger,
      so `x` precedes every equal-keyed element of `s`. */
  function Insert<T>(x: T, s: seq<T>, key: T -> real): (r: seq<T>)
    requires SortedBy(s, key)
    ensures SortedBy(r, key)
    ensures multiset(r) == multiset(s) + multiset{x}
    ensures forall v :: WithKey(r, key, v) == WithKey([x] + s, key, v)
  {
    if |s| == 0 || key(s[0]) <= key(x) then [x] + s
    else
      var rest := Insert(x, s[1..], key);
      InsertStep(x, s, key, rest);
      [s[0]] + rest
  }

  /** The recursive case of `Insert`: `s[0]` has a larger key than `x`,
      so it stays in front of the insertion into the tail. */
  lemma InsertStep<T>(x: T, s: seq<T>, key: T -> real, rest: seq<T>)
    requires SortedBy(s, key) && |s| > 0 && key(s[0]) > key(x)
    requires SortedBy(rest, key)
    requires multiset(rest) == multiset(s[1..]) + multiset{x}
    requires forall v :: WithKey(rest, key, v) == WithKey([x] + s[1..], key, v)
    ensures SortedBy([s[0]] + rest, key)
    ensures multiset([s[0]] + rest) == multiset(s) + multiset{x}
    ensures forall v :: WithKey([s[0]] + rest, key, v) == WithKey([x] + s, key, v)
  {
    assert s == [s[0]] + s[1..];
    InsertStepSorted(x, s, key, rest);
    forall v ensures WithKey([s[0]] + rest, key, v) == WithKey([x] + s, key, v) {
      InsertStepWithKey(x, s, key, rest, v);
    }
  }

  lemma InsertStepSorted<T>(x: T, s: seq<T>, key: T -> real, rest: seq<T>)
    requires SortedBy(s, key) && |s| > 0 && key(s[0]) > key(x)
    requires SortedBy(rest, key)
    requires multiset(rest) == multiset(s[1..]) + multiset{x}
    ensures SortedBy([s[0]] + rest, key)
  {
    forall e | e in rest ensures key(e) <= key(s[0]) {
      assert e in multiset(rest);
      if e != x {
        assert e in multiset(s[1..]);
        assert e in s[1..];
      }
    }
    var r := [s[0]] + rest;
    forall i, j | 0 <= i < j < |r| ensures key(r[i]) >= key(r[j]) {
      if i == 0 {
        assert r[j] == rest[j - 1];
        assert r[j] in rest;
      } else {
        assert r[i] == rest[i - 1] && r[j] == rest[j - 1];
      }
    }
  }

  lemma InsertStepWithKey<T>(x: T, s: seq<T>, key: T -> real, rest: seq<T>, v: real)
    requires |s| > 0 && key(s[0]) > key(x)
    requires WithKey(rest, key, v) == WithKey([x] + s[1..], key, v)
    ensures WithKey([s[0]] + rest, key, v) == WithKey([x] + s, key, v)
  {
    assert s == [s[0]] + s[1..];
    WithKeyCons(s[0], rest, key, v);
    WithKeyCons(x, s[1..], key, v);
    WithKeyCons(x, s, key, v);
    WithKeyCons(s[0], s[1..], key, v);
  }

  /** Stable sort by key, largest key first. */
  function SortDesc<T>(s: seq<T>, key: T -> real): (r: seq<T>)
    ensures SortedBy(r, key)
    ensures multiset(r) == multiset(s)
    ensures |r| == |s|
    ensures forall v :: WithKey(r, key, v) == WithKey(s, key, v)
  {
    if |s| == 0 then []
    else
      var rest := SortDesc(s[1..], key);
      assert s == [s[0]] + s[1..];
      forall v ensures WithKey([s[0]] + rest, key, v) == WithKey(s, key, v) {
        WithKeyCons(s[0], rest, key, v);
        WithKeyCons(s[0], s[1..], key, v);
      }
      var r := Insert(s[0], rest, key);
      assert |multiset(r)| == |multiset(s)|;
      r
  }

  /** Two sequences that are both sorted by key and agree on every
      equal-key subsequence are the same sequence: stability plus order
      determine the sorted output completely. */
  lemma {:induction false} SortedStableUnique<T>(a: seq<T>, b: seq<T>, key: T -> real)
    requires SortedBy(a, key) && SortedBy(b, key)
    requires forall v :: WithKey(a, key, v) == WithKey(b, key, v)
    ensures a == b
    decreases |a| + |b|
  {
    if |a| == 0 {
      if |b| != 0 {
        WithKeyHead(b, key);
        assert false;
      }
    } else if |b| == 0 {
      WithKeyHead(a, key);
      assert false;
    } else {
      // the largest key leads both sequences
      if key(a[0]) > key(b[0]) {
        WithKeyHead(a, key);
        WithKeyAllBelow(b, key, key(a[0]));
        assert false;
      } else if key(b[0]) > key(a[0]) {
        WithKeyHead(b, key);
        WithKeyAllBelow(a, key, key(b[0]));
        assert false;
      } else {
        WithKeyHead(a, key);
        WithKeyHead(b, key);
        assert a[0] == WithKey(a, key, key(a[0]))[0] == b[0];
        forall v ensures WithKey(a[1..], key, v) == WithKey(b[1..], key, v) {
          assert WithKey(a, key, v) == WithKey(b, key, v);
          var h := if key(a[0]) == v then [a[0]] else [];
          assert WithKey(a, key, v) == h + WithKey(a[1..], key, v);
          assert WithKey(b, key, v) == h + WithKey(b[1..], key, v);
          assert (h + WithKey(a[1..], key, v))[|h|..] == WithKey(a[1..], key, v);
          assert (h + WithKey(b[1..], key, v))[|h|..] == WithKey(b[1..], key, v);
        }
        SortedStableUnique(a[1..], b[1..], key);
        assert a == [a[0]] + a[1..];
        assert b == [b[0]] + b[1..];
      }
    }
  }

  lemma WithKeyHead<T>(s: seq<T>, key: T -> real)
    requires |s| > 0
    ensures |WithKey(s, key, key(s[0]))| > 0 && WithKey(s, key, key(s[0]))[0] == s[0]
  {
  }

  lemma {:induction false} WithKeyAllBelow<T>(s: seq<T>, key: T -> real, v: real)
    requires SortedBy(s, key)
    requires |s| > 0 && key(s[0]) < v
    ensures WithKey(s, key, v) == []
    decreases |s|
  {
    if |s| > 1 {
      WithKeyAllBelow(s[1..], key, v);
    }
  }

  lemma {:induction false} WithKeyMembers<T>(s: seq<T>, key: T -> real, v: real)
    ensures forall y :: y in WithKey(s, key, v) ==> y in s && key(y) == v
    ensures forall y :: y in s && key(y) == v ==> y in WithKey(s, key, v)
    decreases |s|
  {
    if |s| > 0 {
      WithKeyMembers(s[1..], key, v);
      assert s == [s[0]] + s[1..];
    }
  }

  /** `rank` strictly increases from left to right. */
  ghost predicate RankIncreasing<T>(s: seq<T>, rank: T -> int)
  {
    forall i, j :: 0 <= i < j < |s| ==> rank(s[i]) < rank(s[j])
  }

  lemma {:induction false} WithKeyKeepsRank<T>(s: seq<T>, key: T -> real, rank: T -> int, v: real)
    requires RankIncreasing(s, rank)
    ensures RankIncreasing(WithKey(s, key, v), rank)
    decreases |s|
  {
    if |s| > 0 {
      var w := WithKey(s[1..], key, v);
      WithKeyKeepsRank(s[1..], key, rank, v);
      if key(s[0]) == v {
        WithKeyMembers(s[1..], key, v);
        forall y | y in w ensures rank(s[0]) < rank(y) {
          HeadRankBelow(s, rank, y);
        }
        RankIncreasingCons(s[0], w, rank);
      }
    }
  }

  lemma HeadRankBelow<T>(s: seq<T>, rank: T -> int, y: T)
    requires RankIncreasing(s, rank) && |s| > 0 && y in s[1..]
    ensures rank(s[0]) < rank(y)
  {
    var k :| 0 <= k < |s[1..]| && s[1..][k] == y;
    assert s[k + 1] == y;
  }

  lemma RankIncreasingCons<T>(x: T, w: seq<T>, rank: T -> int)
    requires RankIncreasing(w, rank)
    requires forall y :: y in w ==> rank(x) < rank(y)
    ensures RankIncreasing([x] + w, rank)
  {
    var r := [x] + w;
    forall i, j | 0 <= i < j < |r| ensures rank(r[i]) < rank(r[j]) {
      assert r[j] == w[j - 1] && r[j] in w;
      if i > 0 {
        assert r[i] == w[i - 1];
      }
    }
  }

  /** If every equal-key subsequence of `r` is ordered by rank, then any two
      equal-keyed elements of `r` are. */
  lemma {:induction false} RankFromWithKey<T>(r: seq<T>, key: T -> real, rank: T -> int)
    requires forall v :: RankIncreasing(WithKey(r, key, v), rank)
    ensures forall i, j :: 0 <= i < j < |r| && key(r[i]) == key(r[j]) ==> rank(r[i]) < rank(r[j])
    decreases |r|
  {
    if |r| > 0 {
      var t := r[1..];
      forall v ensures RankIncreasing(WithKey(t, key, v), rank) {
        var w := WithKey(r, key, v);
        var h := if key(r[0]) == v then [r[0]] else [];
        assert w == h + WithKey(t, key, v);
        assert RankIncreasing(w, rank);
        forall i, j | 0 <= i < j < |WithKey(t, key, v)| ensures rank(WithKey(t, key, v)[i]) < rank(WithKey(t, key, v)[j]) {
          assert WithKey(t, key, v)[i] == w[i + |h|];
          assert WithKey(t, key, v)[j] == w[j + |h|];
        }
      }
      RankFromWithKey(t, key, rank);
      forall i, j | 0 <= i < j < |r| && key(r[i]) == key(r[j]) ensures rank(r[i]) < rank(r[j]) {
        if i == 0 {
          var v := key(r[0]);
          var w := WithKey(r, key, v);
          assert w == [r[0]] + WithKey(t, key, v);
          WithKeyMembers(t, key, v);
          assert r[j] == t[j - 1];
          assert r[j] in WithKey(t, key, v);
          var q :| 0 <= q < |WithKey(t, key, v)| && WithKey(t, key, v)[q] == r[j];
          assert w[0] == r[0] && w[q + 1] == r[j] && 0 < q + 1 < |w|;
          assert RankIncreasing(w, rank);
        } else {
          assert r[i] == t[i - 1] && r[j] == t[j - 1];
        }
      }
    }
  }

  /** The stable sort keeps rank order among equal keys. */
  lemma SortDescStable<T>(s: seq<T>, key: T -> real, rank: T -> int)
    requires RankIncreasing(s, rank)
    ensures forall i, j :: 0 <= i < j < |SortDesc(s, key)| && key(SortDesc(s, key)[i]) == key(SortDesc(s, key)[j]) ==>
      rank(SortDesc(s, key)[i]) < rank(SortDesc(s, key)[j])
  {
    var r := SortDesc(s, key);
    forall v ensures RankIncreasing(WithKey(r, key, v), rank) {
      WithKeyKeepsRank(s, key, rank, v);
    }
    RankFromWithKey(r, key, rank);
  }

  /** No two elements share an `f` value. */
  ghost predicate Injective<T, U>(s: seq<T>, f: T -> U)
  {
    forall i, j :: 0 <= i < j < |s| ==> f(s[i]) != f(s[j])
  }

  lemma {:induction false} PermutationKeepsInjective<T, U>(a: seq<T>, b: seq<T>, f: T -> U)
    requires multiset(a) == multiset(b)
    requires Injective(b, f)
    ensures Injective(a, f)
    decreases |a|
  {
    if |a| > 0 {
      var x := a[0];
      assert x in multiset(b);
      var k :| 0 <= k < |b| && b[k] == x;
      var b' := RemoveAt(b, k, f);
      assert a == [x] + a[1..];
      assert multiset(a[1..]) == multiset(b');
      PermutationKeepsInjective(a[1..], b', f);
      InjectiveCons(x, a[1..], f);
    }
  }

  /** `b` without its `k`-th element, which no other element matches in `f`. */
  function RemoveAt<T, U>(b: seq<T>, k: nat, f: T -> U): (r: seq<T>)
    requires k < |b| && Injective(b, f)
    ensures multiset(r) == multiset(b) - multiset{b[k]}
    ensures Injective(r, f)
    ensures forall y :: y in r ==> f(y) != f(b[k])
  {
    RemoveAtFacts(b, k, f);
    b[..k] + b[k + 1..]
  }

  lemma RemoveAtFacts<T, U>(b: seq<T>, k: nat, f: T -> U)
    requires k < |b| && Injective(b, f)
    ensures multiset(b[..k] + b[k + 1..]) == multiset(b) - multiset{b[k]}
    ensures Injective(b[..k] + b[k + 1..], f)
    ensures forall y :: y in b[..k] + b[k + 1..] ==> f(y) != f(b[k])
  {
    var r := b[..k] + b[k + 1..];
    assert b == b[..k] + [b[k]] + b[k + 1..];
    RemoveAtIndex(b, k, r);
    RemoveAtInjective(b, k, f, r);
    forall y | y in r ensures f(y) != f(b[k]) {
      var i :| 0 <= i < |r| && r[i] == y;
      assert r[i] == b[if i < k then i else i + 1];
    }
  }

  lemma RemoveAtIndex<T>(b: seq<T>, k: nat, r: seq<T>)
    requires k < |b| && r == b[..k] + b[k + 1..]
    ensures |r| == |b| - 1
    ensures forall i :: 0 <= i < |r| ==> r[i] == b[if i < k then i else i + 1]
  {
  }

  lemma RemoveAtInjective<T, U>(b: seq<T>, k: nat, f: T -> U, r: seq<T>)
    requires k < |b| && Injective(b, f) && |r| == |b| - 1
    requires forall i :: 0 <= i < |r| ==> r[i] == b[if i < k then i else i + 1]
    ensures Injective(r, f)
  {
    forall i, j | 0 <= i < j < |r| ensures f(r[i]) != f(r[j]) {
      assert r[i] == b[if i < k then i else i + 1] && r[j] == b[if j < k then j else j + 1];
    }
  }

  lemma InjectiveCons<T, U>(x: T, s: seq<T>, f: T -> U)
    requires Injective(s, f)
    requires forall y :: y in multiset(s) ==> f(y) != f(x)
    ensures Injective([x] + s, f)
  {
    var a := [x] + s;
    forall i, j | 0 <= i < j < |a| ensures f(a[i]) != f(a[j]) {
      assert a[j] == s[j - 1] && a[j] in multiset(s);
      if i > 0 {
        assert a[i] == s[i - 1];
      }
    }
  }

  /** Strictly increasing, hence free of repeats. */
  ghost predicate Increasing(s: seq<int>)
  {
    forall i, j :: 0 <= i < j < |s| ==> s[i] < s[j]
  }

  lemma IncreasingCons(x: int, s: seq<int>)
    requires Increasing(s)
    requires forall y :: y in s ==> x < y
    ensures Increasing([x] + s)
  {
    forall i, j | 0 <= i < j < |[x] + s| ensures ([x] + s)[i] < ([x] + s)[j] {
      assert ([x] + s)[j] == s[j - 1];
      if i > 0 {
        assert ([x] + s)[i] == s[i - 1];
      } else {
        assert s[j - 1] in s;
      }
    }
  }

  function InsertDistinct(x: int, s: seq<int>): (r: seq<int>)
    requires Increasing(s)
    ensures Increasing(r)
    ensures forall y :: y in r <==> y == x || y in s
    ensures |r| <= |s| + 1
  {
    if |s| == 0 || x < s[0] then
      IncreasingFront(x, s);
      [x] + s
    else if x == s[0] then s
    else
      IncreasingTail(s);
      var rest := InsertDistinct(x, s[1..]);
      IncreasingCons(s[0], rest);
      [s[0]] + rest
  }

  lemma IncreasingFront(x: int, s: seq<int>)
    requires Increasing(s) && (|s| == 0 || x < s[0])
    ensures Increasing([x] + s)
  {
    if |s| > 0 {
      IncreasingTail(s);
    }
    IncreasingCons(x, s);
  }

  /** The tail of an increasing sequence is increasing and lies above its head. */
  lemma IncreasingTail(s: seq<int>)
    requires |s| > 0 && Increasing(s)
    ensures Increasing(s[1..])
    ensures forall y :: y in s[1..] ==> s[0] < y
    ensures forall y :: y in s <==> y == s[0] || y in s[1..]
  {
    assert s == [s[0]] + s[1..];
    forall y | y in s[1..] ensures s[0] < y {
      var k :| 0 <= k < |s[1..]| && s[1..][k] == y;
      assert s[k + 1] == y;
    }
    forall i, j | 0 <= i < j < |s[1..]| ensures s[1..][i] < s[1..][j] {
      assert s[1..][i] == s[i + 1] && s[1..][j] == s[j + 1];
    }
  }

  /** The distinct values of `xs`, ascending: the index of a pandas
      `groupby` or `pivot_table` built on that column. */
  function Distinct(xs: seq<int>): (r: seq<int>)
    ensures Increasing(r)
    ensures forall y :: y in r <==> y in xs
    ensures |r| <= |xs|
  {
    if |xs| == 0 then []
    else
      var rest := Distinct(xs[1..]);
      assert forall y :: y in xs <==> y == xs[0] || y in xs[1..] by {
        assert xs == [xs[0]] + xs[1..];
      }
      InsertDistinct(xs[0], rest)
  }

  function Reverse<T>(s: seq<T>): (r: seq<T>)
    ensures |r| == |s|
    ensures forall i :: 0 <= i < |s| ==> r[i] == s[|s| - 1 - i]
  {
    if |s| == 0 then [] else Reverse(s[1..]) + [s[0]]
  }

  /** A strictly decreasing run of integers spans at least its length. */
  lemma {:induction false} DecreasingSpan(s: seq<int>)
    requires |s| > 0
    requires forall i, j :: 0 <= i < j < |s| ==> s[i] > s[j]
    ensures s[0] - s[|s| - 1] >= |s| - 1
    decreases |s|
  {
    if |s| > 1 {
      DecreasingSpan(s[1..]);
      assert s[1..][0] == s[1] && s[1..][|s| - 2] == s[|s| - 1];
      assert s[0] > s[1];
    }
  }

  /** A strictly increasing run of integers spans at least its length. */
  lemma {:induction false} IncreasingSpan(s: seq<int>)
    requires |s| > 0 && Increasing(s)
    ensures s[|s| - 1] - s[0] >= |s| - 1
    decreases |s|
  {
    if |s| > 1 {
      assert Increasing(s[1..]) by {
        forall i, j | 0 <= i < j < |s[1..]| ensures s[1..][i] < s[1..][j] {
          assert s[1..][i] == s[i + 1] && s[1..][j] == s[j + 1];
        }
      }
      IncreasingSpan(s[1..]);
      assert s[1..][0] == s[1] && s[1..][|s| - 2] == s[|s| - 1];
      assert s[0] < s[1];
    }
  }

  /** The `k` largest distinct values of `xs`, largest first: a `groupby`
      index sorted descending and cut with `head(k)`. */
  function LargestDistinct(xs: seq<int>, k: nat): (r: seq<int>)
    ensures |r| <= k
    ensures forall i, j :: 0 <= i < j < |r| ==> r[i] > r[j]
    ensures forall y :: y in r ==> y in xs
    ensures forall y :: y in xs && y !in r ==> |r| == k && forall z :: z in r ==> z > y
    ensures |r| == k || forall y :: y in xs ==> y in r
  {
    var d := Distinct(xs);
    var rev := Reverse(d);
    var n := if |rev| < k then |rev| else k;
    ReverseOfIncreasing(d, rev);
    DescendingPrefix(rev, n);
    forall y | y in xs && y !in rev[..n] ensures n == k && forall z :: z in rev[..n] ==> z > y {
      LeftOutIsSmaller(rev, n, k, y);
    }
    rev[..n]
  }

  /** Reversing an increasing sequence gives a decreasing one with the same values. */
  lemma ReverseOfIncreasing(d: seq<int>, rev: seq<int>)
    requires Increasing(d) && rev == Reverse(d)
    ensures forall y :: y in rev <==> y in d
    ensures forall i, j :: 0 <= i < j < |rev| ==> rev[i] > rev[j]
  {
    forall y | y in d ensures y in rev {
      var i :| 0 <= i < |d| && d[i] == y;
      assert rev[|d| - 1 - i] == y;
    }
    forall i, j | 0 <= i < j < |rev| ensures rev[i] > rev[j] {
      assert rev[i] == d[|d| - 1 - i] && rev[j] == d[|d| - 1 - j];
    }
  }

  lemma DescendingPrefix(rev: seq<int>, n: nat)
    requires n <= |rev|
    requires forall i, j :: 0 <= i < j < |rev| ==> rev[i] > rev[j]
    ensures forall i, j :: 0 <= i < j < |rev[..n]| ==> rev[..n][i] > rev[..n][j]
    ensures forall y :: y in rev[..n] ==> y in rev
  {
    forall i, j | 0 <= i < j < n ensures rev[..n][i] > rev[..n][j] {
      assert rev[..n][i] == rev[i] && rev[..n][j] == rev[j];
    }
  }

  /** A value of a decreasing sequence left out of its first `n` entries
      lies below all of them, and the prefix is full. */
  lemma LeftOutIsSmaller(rev: seq<int>, n: nat, k: nat, y: int)
    requires n == if |rev| < k then |rev| else k
    requires forall i, j :: 0 <= i < j < |rev| ==> rev[i] > rev[j]
    requires y in rev && y !in rev[..n]
    ensures n == k && forall z :: z in rev[..n] ==> z > y
  {
    var i :| 0 <= i < |rev| && rev[i] == y;
    if i < n {
      assert false;
    }
    forall z | z in rev[..n] ensures z > y {
      var j :| 0 <= j < n && rev[..n][j] == z;
      assert rev[j] == z;
    }
  }
}
