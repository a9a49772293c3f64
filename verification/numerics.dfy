/** The scalar and column reductions the goal pipeline relies on, on exact
    reals: Python's `round` (half to even), Python's `int()` on a float
    (truncation toward zero), and pandas' `mean`, `median` and `mode`. */
module Numerics {
  import opened Sorting

  /** Python 3 `round(x)`: the nearest integer, ties to the even one. */
  function RoundHalfEven(x: real): (r: int)
    ensures -0.5 <= x - r as real <= 0.5
    ensures (x - r as real == 0.5 || r as real - x == 0.5) ==> r % 2 == 0
  {
    var f := x.Floor;
    var d := x - f as real;
    if d < 0.5 then f
    else if d > 0.5 then f + 1
    else if f % 2 == 0 then f
    else f + 1
  }

  /** Rounding is a unique choice: any integer within half a unit of `x`
      (and even, on a tie) is the rounded value. */
  lemma RoundHalfEvenUnique(x: real, n: int)
    requires -0.5 <= x - n as real <= 0.5
    requires (x - n as real == 0.5 || n as real - x == 0.5) ==> n % 2 == 0
    ensures RoundHalfEven(x) == n
  {
  }

  lemma RoundHalfEvenMonotone(x: real, y: real)
    requires x <= y
    ensures RoundHalfEven(x) <= RoundHalfEven(y)
  {
  }

  /** Python `int(x)` on a float: truncation toward zero. */
  function Trunc(x: real): (r: int)
    ensures 0.0 <= x ==> r as real <= x < r as real + 1.0
    ensures x < 0.0 ==> r as real - 1.0 < x <= r as real
  {
    if x >= 0.0 then x.Floor else -((-x).Floor)
  }

  /** `max(lo, min(hi, x))`. */
  function Clamp(x: int, lo: int, hi: int): (r: int)
    requires lo <= hi
    ensures lo <= r <= hi
    ensures lo <= x <= hi ==> r == x
    ensures x < lo ==> r == lo
    ensures x > hi ==> r == hi
  {
    if x < lo then lo else if x > hi then hi else x
  }

  function Sum(s: seq<real>): real
  {
    if |s| == 0 then 0.0 else s[0] + Sum(s[1..])
  }

  /** numpy `dot` of two equally long vectors. */
  function Dot(a: seq<real>, v: seq<real>): real
    requires |a| == |v|
  {
    if |a| == 0 then 0.0 else a[0] * v[0] + Dot(a[1..], v[1..])
  }

  /** Non-negative weights over values in [0, hi] give a dot product between
      0 and hi times the total weight. */
  lemma {:induction false} DotBounded(a: seq<real>, v: seq<real>, hi: real)
    requires |a| == |v|
    requires forall k :: 0 <= k < |a| ==> a[k] >= 0.0
    requires forall k :: 0 <= k < |v| ==> 0.0 <= v[k] <= hi
    ensures 0.0 <= Dot(a, v) <= hi * Sum(a)
    ensures Sum(a) >= 0.0
    decreases |a|
  {
    if |a| > 0 {
      DotBounded(a[1..], v[1..], hi);
      DotStep(a[0], v[0], hi, Dot(a[1..], v[1..]), Sum(a[1..]));
    }
  }

  lemma DotStep(s: real, c: real, hi: real, w: real, t: real)
    requires s >= 0.0 && 0.0 <= c <= hi && 0.0 <= w <= hi * t
    ensures 0.0 <= s * c + w <= hi * (s + t)
  {
    assert s * c >= 0.0;
    assert s * (hi - c) >= 0.0;
    assert s * (hi - c) == s * hi - s * c;
    assert hi * (s + t) == hi * s + hi * t;
  }

  /** pandas `mean` of a non-empty column. */
  function Mean(s: seq<real>): (r: real)
    requires |s| > 0
    ensures r * |s| as real == Sum(s)
  {
    Sum(s) / |s| as real
  }

  lemma {:induction false} SumBounds(s: seq<real>, lo: real, hi: real)
    requires forall i :: 0 <= i < |s| ==> lo <= s[i] <= hi
    ensures lo * |s| as real <= Sum(s) <= hi * |s| as real
    decreases |s|
  {
    if |s| > 0 {
      SumBounds(s[1..], lo, hi);
    }
  }

  /** A mean lies between any bounds of its terms. */
  lemma MeanBounds(s: seq<real>, lo: real, hi: real)
    requires |s| > 0
    requires forall i :: 0 <= i < |s| ==> lo <= s[i] <= hi
    ensures lo <= Mean(s) <= hi
  {
    SumBounds(s, lo, hi);
  }

  /** How many terms lie strictly below / strictly above `m`. */
  function CountBelow(s: seq<real>, m: real): nat
  {
    if |s| == 0 then 0 else (if s[0] < m then 1 else 0) + CountBelow(s[1..], m)
  }

  function CountAbove(s: seq<real>, m: real): nat
  {
    if |s| == 0 then 0 else (if s[0] > m then 1 else 0) + CountAbove(s[1..], m)
  }

  lemma {:induction false} CountAppend(a: seq<real>, b: seq<real>, m: real)
    ensures CountBelow(a + b, m) == CountBelow(a, m) + CountBelow(b, m)
    ensures CountAbove(a + b, m) == CountAbove(a, m) + CountAbove(b, m)
    decreases |a|
  {
    if |a| > 0 {
      assert (a + b)[1..] == a[1..] + b;
      CountAppend(a[1..], b, m);
    } else {
      assert a + b == b;
    }
  }

  lemma {:induction false} CountAtMostLength(s: seq<real>, m: real)
    ensures CountBelow(s, m) <= |s| && CountAbove(s, m) <= |s|
    decreases |s|
  {
    if |s| > 0 {
      CountAtMostLength(s[1..], m);
    }
  }

  lemma {:induction false} CountNoneBelow(s: seq<real>, m: real)
    requires forall i :: 0 <= i < |s| ==> s[i] >= m
    ensures CountBelow(s, m) == 0
    decreases |s|
  {
    if |s| > 0 {
      CountNoneBelow(s[1..], m);
    }
  }

  lemma {:induction false} CountNoneAbove(s: seq<real>, m: real)
    requires forall i :: 0 <= i < |s| ==> s[i] <= m
    ensures CountAbove(s, m) == 0
    decreases |s|
  {
    if |s| > 0 {
      CountNoneAbove(s[1..], m);
    }
  }

  lemma {:induction false} CountAllBelow(s: seq<real>, m: real)
    requires forall i :: 0 <= i < |s| ==> s[i] < m
    ensures CountBelow(s, m) == |s|
    decreases |s|
  {
    if |s| > 0 {
      CountAllBelow(s[1..], m);
    }
  }

  lemma {:induction false} CountAllAbove(s: seq<real>, m: real)
    requires forall i :: 0 <= i < |s| ==> s[i] > m
    ensures CountAbove(s, m) == |s|
    decreases |s|
  {
    if |s| > 0 {
      CountAllAbove(s[1..], m);
    }
  }

  /** Counting is insensitive to order. */
  lemma {:induction false} CountPermutation(a: seq<real>, b: seq<real>, m: real)
    requires multiset(a) == multiset(b)
    ensures CountBelow(a, m) == CountBelow(b, m)
    ensures CountAbove(a, m) == CountAbove(b, m)
    decreases |a|
  {
    if |a| == 0 {
      assert |multiset(b)| == 0;
    } else {
      var x := a[0];
      assert x in multiset(b);
      var k :| 0 <= k < |b| && b[k] == x;
      var b' := b[..k] + b[k + 1..];
      CountRemoveAt(b, k, m);
      CountAppend([x], a[1..], m);
      assert a == [x] + a[1..];
      assert multiset(a[1..]) == multiset(b');
      CountPermutation(a[1..], b', m);
    }
  }

  /** Removing the `k`-th term removes its multiplicity and its contribution to the counts. */
  lemma CountRemoveAt(b: seq<real>, k: nat, m: real)
    requires k < |b|
    ensures multiset(b[..k] + b[k + 1..]) == multiset(b) - multiset{b[k]}
    ensures CountBelow(b, m) == CountBelow(b[..k] + b[k + 1..], m) + (if b[k] < m then 1 else 0)
    ensures CountAbove(b, m) == CountAbove(b[..k] + b[k + 1..], m) + (if b[k] > m then 1 else 0)
  {
    var x := b[k];
    assert b == b[..k] + ([x] + b[k + 1..]);
    assert multiset(b) == multiset(b[..k]) + multiset{x} + multiset(b[k + 1..]);
    CountAppend(b[..k], [x] + b[k + 1..], m);
    CountAppend([x], b[k + 1..], m);
    CountAppend(b[..k], b[k + 1..], m);
  }

  /** The values from largest to smallest. */
  function Descending(s: seq<real>): (t: seq<real>)
    ensures |t| == |s|
  {
    SortDesc(s, x => x)
  }

  /** pandas `median` of a non-empty column: the middle term of the sorted
      column, or the mean of the two middle terms when the length is even.
      Characterised by: at most half the terms lie strictly on either side. */
  function Median(s: seq<real>): (r: real)
    requires |s| > 0
    ensures CountBelow(s, r) <= |s| / 2
    ensures CountAbove(s, r) <= |s| / 2
    ensures r == (Descending(s)[(|s| - 1) / 2] + Descending(s)[|s| / 2]) / 2.0
  {
    var t := Descending(s);
    var r := (t[(|t| - 1) / 2] + t[|t| / 2]) / 2.0;
    MedianCounts(t, r);
    CountPermutation(s, t, r);
    r
  }

  lemma MedianCounts(t: seq<real>, r: real)
    requires |t| > 0 && SortedBy(t, x => x)
    requires r == (t[(|t| - 1) / 2] + t[|t| / 2]) / 2.0
    ensures CountBelow(t, r) <= |t| / 2
    ensures CountAbove(t, r) <= |t| / 2
  {
    assert forall i, j :: 0 <= i < j < |t| ==> t[i] >= t[j] by {
      forall i, j | 0 <= i < j < |t| ensures t[i] >= t[j] {
        assert (x => x)(t[i]) >= (x => x)(t[j]);
      }
    }
    var m := |t| / 2;
    var k := if |t| % 2 == 1 then m + 1 else m;
    assert t[k - 1] >= r >= t[m];
    CountSplit(t, r, k, m);
  }

  /** In a descending sequence whose first `k` terms are at least `r` and
      whose terms from `m` on are at most `r`, at most `|t| - k` terms lie
      below `r` and at most `m` above it. */
  lemma CountSplit(t: seq<real>, r: real, k: nat, m: nat)
    requires forall i, j :: 0 <= i < j < |t| ==> t[i] >= t[j]
    requires 0 < k <= |t| && m < |t|
    requires t[k - 1] >= r >= t[m]
    ensures CountBelow(t, r) <= |t| - k
    ensures CountAbove(t, r) <= m
  {
    assert t == t[..k] + t[k..];
    assert t == t[..m] + t[m..];
    CountNoneBelow(t[..k], r);
    CountNoneAbove(t[m..], r);
    CountAppend(t[..k], t[k..], r);
    CountAppend(t[..m], t[m..], r);
    CountAtMostLength(t[k..], r);
    CountAtMostLength(t[..m], r);
  }

  /** The median lies within any bounds that hold for every term. */
  lemma MedianBounds(s: seq<real>, lo: real, hi: real)
    requires |s| > 0
    requires forall i :: 0 <= i < |s| ==> lo <= s[i] <= hi
    ensures lo <= Median(s) <= hi
  {
    var m := Median(s);
    if m < lo {
      CountAllAbove(s, m);
    }
    if m > hi {
      CountAllBelow(s, m);
    }
  }


  /** pandas `mode().iloc[0]` over an integer column: a most frequent value,
      the smallest one when several are equally frequent. */
  function Mode(s: seq<int>): (r: int)
    requires |s| > 0
    ensures r in s
    ensures forall x :: x in s ==> multiset(s)[x] <= multiset(s)[r]
    ensures forall x :: x in s && multiset(s)[x] == multiset(s)[r] ==> r <= x
  {
    ModeAmong(s, |s|)
  }

  /** The mode among the candidates `s[..k]`, counting over all of `s`. */
  function ModeAmong(s: seq<int>, k: nat): (r: int)
    requires 0 < k <= |s|
    ensures r in s[..k]
    ensures forall j :: 0 <= j < k ==> multiset(s)[s[j]] <= multiset(s)[r]
    ensures forall j :: 0 <= j < k && multiset(s)[s[j]] == multiset(s)[r] ==> r <= s[j]
  {
    if k == 1 then s[0]
    else
      var b := ModeAmong(s, k - 1);
      var x := s[k - 1];
      assert s[..k] == s[..k - 1] + [x];
      if multiset(s)[x] > multiset(s)[b] || (multiset(s)[x] == multiset(s)[b] && x < b) then x else b
  }
}
