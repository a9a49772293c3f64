/** User-based collaborative filtering over a rating matrix
    (recommend_api/recommender/collaborative.py). The rating rows are the
    result of the reviews-join-books query; the cosine similarity between
    users is an input function, `sim(v, u)` being the entry in row `v`,
    column `u` of the user-similarity frame. */
module Collaborative {
  import opened Wrappers
  import opened Sorting
  import opened Numerics

  type UserId = int
  type BookId = int

  /** One row of the reviews-join-books query. */
  datatype RatingRow = RatingRow(
    userId: UserId, bookId: BookId, rating: real,
    title: string, author: string, category: string, cover: Option<string>)

  /** One returned record: the first query row of a recommended book with
      its predicted rating attached. */
  datatype Recommendation = Recommendation(
    bookId: BookId, title: string, author: string, category: string,
    cover: Option<string>, predictedRating: real)

  /** The default `top_n` of `recommend_collaborative`. */
  const DefaultTopN: nat := 3

  /** The small constant added to the similarity total in the denominator. */
  const Epsilon: real := 0.000000001

  function UserColumn(rows: seq<RatingRow>): (r: seq<UserId>)
    ensures |r| == |rows|
    ensures forall i {:trigger r[i]} :: 0 <= i < |rows| ==> r[i] == rows[i].userId
  {
    if |rows| == 0 then [] else [rows[0].userId] + UserColumn(rows[1..])
  }

  function BookColumn(rows: seq<RatingRow>): (r: seq<BookId>)
    ensures |r| == |rows|
    ensures forall i {:trigger r[i]} :: 0 <= i < |rows| ==> r[i] == rows[i].bookId
  {
    if |rows| == 0 then [] else [rows[0].bookId] + BookColumn(rows[1..])
  }

  /** The row index of the rating matrix (ascending user ids). */
  function Users(rows: seq<RatingRow>): seq<UserId>
  {
    Distinct(UserColumn(rows))
  }

  /** The column index of the rating matrix (ascending book ids). */
  function Books(rows: seq<RatingRow>): seq<BookId>
  {
    Distinct(BookColumn(rows))
  }

  /** The ratings user `u` gave book `b`, in row order. */
  function PairRatings(rows: seq<RatingRow>, u: UserId, b: BookId): seq<real>
  {
    if |rows| == 0 then []
    else
      var head := if rows[0].userId == u && rows[0].bookId == b then [rows[0].rating] else [];
      head + PairRatings(rows[1..], u, b)
  }

  lemma {:induction false} PairRatingsEmpty(rows: seq<RatingRow>, u: UserId, b: BookId)
    requires forall i :: 0 <= i < |rows| ==> !(rows[i].userId == u && rows[i].bookId == b)
    ensures PairRatings(rows, u, b) == []
    decreases |rows|
  {
    if |rows| > 0 {
      PairRatingsEmpty(rows[1..], u, b);
    }
  }

  lemma {:induction false} PairRatingsWithin(rows: seq<RatingRow>, u: UserId, b: BookId, lo: real, hi: real)
    requires forall i :: 0 <= i < |rows| && rows[i].userId == u && rows[i].bookId == b ==> lo <= rows[i].rating <= hi
    ensures forall k :: 0 <= k < |PairRatings(rows, u, b)| ==> lo <= PairRatings(rows, u, b)[k] <= hi
    decreases |rows|
  {
    if |rows| > 0 {
      PairRatingsWithin(rows[1..], u, b, lo, hi);
    }
  }

  lemma {:induction false} PairRatingsPresent(rows: seq<RatingRow>, u: UserId, b: BookId, i: nat)
    requires i < |rows| && rows[i].userId == u && rows[i].bookId == b
    ensures |PairRatings(rows, u, b)| > 0
    decreases i
  {
    if i > 0 {
      PairRatingsPresent(rows[1..], u, b, i - 1);
    }
  }

  /** One cell of `pivot_table(index='user_id', columns='book_id',
      values='rating').fillna(0)`: the mean of the pair's ratings (the
      pivot's default aggregation), or 0 when the user never rated it. */
  function Cell(rows: seq<RatingRow>, u: UserId, b: BookId): real
  {
    var p := PairRatings(rows, u, b);
    if |p| == 0 then 0.0 else Mean(p)
  }

  /** A pair nobody rated reads as 0 in the matrix, never as an average. */
  lemma CellMissingIsZero(rows: seq<RatingRow>, u: UserId, b: BookId)
    requires forall i :: 0 <= i < |rows| ==> !(rows[i].userId == u && rows[i].bookId == b)
    ensures Cell(rows, u, b) == 0.0
  {
    PairRatingsEmpty(rows, u, b);
  }

  /** Duplicate ratings of one pair are averaged: the cell lies within any
      bounds of those ratings, and equals their common value when they
      agree. */
  lemma CellWithinRatings(rows: seq<RatingRow>, u: UserId, b: BookId, lo: real, hi: real)
    requires exists i :: 0 <= i < |rows| && rows[i].userId == u && rows[i].bookId == b
    requires forall i :: 0 <= i < |rows| && rows[i].userId == u && rows[i].bookId == b ==> lo <= rows[i].rating <= hi
    ensures lo <= Cell(rows, u, b) <= hi
  {
    var i :| 0 <= i < |rows| && rows[i].userId == u && rows[i].bookId == b;
    PairRatingsPresent(rows, u, b, i);
    PairRatingsWithin(rows, u, b, lo, hi);
    MeanBounds(PairRatings(rows, u, b), lo, hi);
  }

  /** The similarity column of `target`, sorted descending (ties keep the
      ascending user order of the matrix index). */
  function Ranked(rows: seq<RatingRow>, sim: (UserId, UserId) -> real, target: UserId): seq<UserId>
  {
    SortDesc(Users(rows), v => sim(v, target))
  }

  /** The neighbours: the ranked column with its first entry cut off. */
  function Neighbours(rows: seq<RatingRow>, sim: (UserId, UserId) -> real, target: UserId): seq<UserId>
  {
    var ranked := Ranked(rows, sim, target);
    if |ranked| == 0 then [] else ranked[1..]
  }

  lemma IncreasingCountsOnce(s: seq<int>, v: int)
    requires Increasing(s) && v in s
    ensures multiset(s)[v] == 1
  {
    var i :| 0 <= i < |s| && s[i] == v;
    assert s == s[..i] + [v] + s[i + 1..];
    assert v !in s[..i];
    assert v !in s[i + 1..];
    assert multiset(s[..i])[v] == 0;
    assert multiset(s[i + 1..])[v] == 0;
  }

  /** Neighbour selection drops exactly one user, the first of the ranked
      column, who has the highest similarity to the target. The target
      itself is left out only when it is that first user. */
  lemma NeighbourSelection(rows: seq<RatingRow>, sim: (UserId, UserId) -> real, target: UserId)
    requires target in UserColumn(rows)
    ensures |Ranked(rows, sim, target)| > 0
    ensures var d := Ranked(rows, sim, target)[0];
      && d in UserColumn(rows)
      && (forall v :: v in UserColumn(rows) ==> sim(v, target) <= sim(d, target))
      && |Neighbours(rows, sim, target)| == |Users(rows)| - 1
      && (forall v :: v in Neighbours(rows, sim, target) <==> v in UserColumn(rows) && v != d)
      && (target !in Neighbours(rows, sim, target) <==> target == d)
  {
    var users := Users(rows);
    var key := v => sim(v, target);
    var ranked := Ranked(rows, sim, target);
    assert target in users;
    assert target in multiset(ranked);
    var d := ranked[0];
    assert d in multiset(users);
    forall v | v in UserColumn(rows) ensures sim(v, target) <= sim(d, target) {
      assert v in multiset(ranked);
      var j :| 0 <= j < |ranked| && ranked[j] == v;
      if j > 0 {
        assert key(ranked[0]) >= key(ranked[j]);
      }
    }
    assert ranked == [d] + ranked[1..];
    IncreasingCountsOnce(users, d);
    assert multiset(ranked[1..])[d] == 0;
    forall v ensures v in ranked[1..] <==> v in UserColumn(rows) && v != d {
      if v in UserColumn(rows) && v != d {
        assert v in multiset(ranked);
        assert v in multiset(ranked[1..]);
      }
      if v in ranked[1..] {
        assert v in multiset(ranked);
        assert v in multiset(users);
      }
    }
  }

  /** When every other user is strictly less similar to the target than the
      target is to itself, the target is not its own neighbour. */
  lemma SelfExcludedOnStrictMaximum(rows: seq<RatingRow>, sim: (UserId, UserId) -> real, target: UserId)
    requires target in UserColumn(rows)
    requires forall v :: v in UserColumn(rows) && v != target ==> sim(v, target) < sim(target, target)
    ensures target !in Neighbours(rows, sim, target)
    ensures forall v :: v in Neighbours(rows, sim, target) <==> v in UserColumn(rows) && v != target
  {
    NeighbourSelection(rows, sim, target);
  }

  /** Two users with identical ratings are perfectly similar; the ranked
      column keeps the lower id first, so cutting off the first entry drops
      the other user and leaves user 2 as its own only neighbour. */
  lemma SelfKeptOnTie()
    ensures Neighbours(
      [RatingRow(1, 10, 5.0, "T", "A", "C", None), RatingRow(2, 10, 5.0, "T", "A", "C", None)],
      (a, b) => 1.0, 2) == [2]
  {
    var rows := [RatingRow(1, 10, 5.0, "T", "A", "C", None), RatingRow(2, 10, 5.0, "T", "A", "C", None)];
    assert UserColumn(rows) == [1, 2];
    assert Distinct([2]) == [2];
    assert Users(rows) == [1, 2];
    var key: UserId -> real := v => ((a: UserId, b: UserId) => 1.0)(v, 2);
    assert SortDesc([2], key) == [2];
    assert SortDesc([1, 2], key) == Insert(1, [2], key);
  }

  /** `sims.values`: the neighbours' similarities to the target. */
  function SimColumn(ns: seq<UserId>, sim: (UserId, UserId) -> real, target: UserId): (r: seq<real>)
    ensures |r| == |ns|
    ensures forall k :: 0 <= k < |ns| ==> r[k] == sim(ns[k], target)
  {
    if |ns| == 0 then [] else [sim(ns[0], target)] + SimColumn(ns[1..], sim, target)
  }

  /** `matrix.loc[sims.index]` restricted to book `b`: the neighbours' cells. */
  function RatingColumn(rows: seq<RatingRow>, ns: seq<UserId>, b: BookId): (r: seq<real>)
    ensures |r| == |ns|
    ensures forall k :: 0 <= k < |ns| ==> r[k] == Cell(rows, ns[k], b)
  {
    if |ns| == 0 then [] else [Cell(rows, ns[0], b)] + RatingColumn(rows, ns[1..], b)
  }

  /** Similarity-weighted rating of book `b` over the neighbours:
      `dot(sims, column) / (sum(sims) + 1e-9)`. A denominator of exactly
      zero, which floats reach only by cancellation, gives 0. */
  function Prediction(rows: seq<RatingRow>, sim: (UserId, UserId) -> real, target: UserId, b: BookId): real
  {
    var ns := Neighbours(rows, sim, target);
    var sims := SimColumn(ns, sim, target);
    Damped(Dot(sims, RatingColumn(rows, ns, b)), Sum(sims))
  }

  /** `w / (t + 1e-9)`, or 0 when the denominator is exactly zero. */
  function Damped(w: real, t: real): real
  {
    if t + Epsilon == 0.0 then 0.0 else w / (t + Epsilon)
  }

  /** With non-negative similarities and matrix cells in [0, hi], every
      prediction is a damped weighted average and stays within [0, hi]. */
  lemma PredictionBounded(rows: seq<RatingRow>, sim: (UserId, UserId) -> real, target: UserId, b: BookId, hi: real)
    requires hi >= 0.0
    requires forall u, v :: sim(u, v) >= 0.0
    requires forall u :: 0.0 <= Cell(rows, u, b) <= hi
    ensures 0.0 <= Prediction(rows, sim, target, b) <= hi
  {
    var ns := Neighbours(rows, sim, target);
    var sims := SimColumn(ns, sim, target);
    var col := RatingColumn(rows, ns, b);
    var w := Dot(sims, col);
    var t := Sum(sims);
    ColumnsWithin(rows, ns, sim, target, b, hi);
    WeightedRatioBounded(sims, col, hi, w, t);
    assert Prediction(rows, sim, target, b) == Damped(w, t);
  }

  /** A similarity-weighted average `w / (t + Epsilon)` of values in
      [0, hi], with `w` the weighted total and `t` the total weight, stays
      within [0, hi]. */
  lemma WeightedRatioBounded(sims: seq<real>, col: seq<real>, hi: real, w: real, t: real)
    requires hi >= 0.0 && |sims| == |col|
    requires forall k :: 0 <= k < |sims| ==> sims[k] >= 0.0
    requires forall k :: 0 <= k < |col| ==> 0.0 <= col[k] <= hi
    requires w == Dot(sims, col) && t == Sum(sims)
    ensures 0.0 <= Damped(w, t) <= hi
  {
    DotBounded(sims, col, hi);
    DampedRatioBounded(w, t, hi);
  }

  lemma ColumnsWithin(rows: seq<RatingRow>, ns: seq<UserId>, sim: (UserId, UserId) -> real, target: UserId, b: BookId, hi: real)
    requires forall u, v :: sim(u, v) >= 0.0
    requires forall u :: 0.0 <= Cell(rows, u, b) <= hi
    ensures |SimColumn(ns, sim, target)| == |RatingColumn(rows, ns, b)|
    ensures forall k :: 0 <= k < |SimColumn(ns, sim, target)| ==> SimColumn(ns, sim, target)[k] >= 0.0
    ensures forall k :: 0 <= k < |RatingColumn(rows, ns, b)| ==> 0.0 <= RatingColumn(rows, ns, b)[k] <= hi
  {
  }

  lemma DampedRatioBounded(w: real, t: real, hi: real)
    requires hi >= 0.0 && t >= 0.0 && 0.0 <= w <= hi * t
    ensures 0.0 <= Damped(w, t) <= hi
  {
    var d := t + Epsilon;
    assert hi * Epsilon >= 0.0;
    assert hi * d == hi * t + hi * Epsilon;
    assert (w / d) * d == w;
  }

  function FilterUnrated(books: seq<BookId>, rows: seq<RatingRow>, target: UserId): (r: seq<BookId>)
    requires Increasing(books)
    ensures Increasing(r)
    ensures forall b :: b in r <==> b in books && Cell(rows, target, b) <= 0.0
  {
    if |books| == 0 then []
    else
      var rest := FilterUnrated(books[1..], rows, target);
      assert forall b :: b in books[1..] ==> books[0] < b;
      assert forall b :: b in books <==> b == books[0] || b in books[1..] by {
        assert books == [books[0]] + books[1..];
      }
      if Cell(rows, target, books[0]) > 0.0 then rest
      else
        IncreasingCons(books[0], rest);
        [books[0]] + rest
  }

  /** The matrix columns left after dropping the books the target rated
      above zero. */
  function Unrated(rows: seq<RatingRow>, target: UserId): (r: seq<BookId>)
    ensures Increasing(r)
    ensures forall b :: b in r <==> b in BookColumn(rows) && Cell(rows, target, b) <= 0.0
  {
    FilterUnrated(Books(rows), rows, target)
  }

  /** The `topN` unrated books of highest prediction (ties by ascending id). */
  function TopBooks(rows: seq<RatingRow>, sim: (UserId, UserId) -> real, target: UserId, topN: nat): seq<BookId>
  {
    var ranked := SortDesc(Unrated(rows, target), b => Prediction(rows, sim, target, b));
    ranked[..if |ranked| < topN then |ranked| else topN]
  }

  /** The index of the first query row about book `b`. */
  function FirstRow(rows: seq<RatingRow>, b: BookId): (k: nat)
    requires b in BookColumn(rows)
    ensures k < |rows| && rows[k].bookId == b
  {
    if rows[0].bookId == b then 0
    else
      assert BookColumn(rows) == [rows[0].bookId] + BookColumn(rows[1..]);
      1 + FirstRow(rows[1..], b)
  }

  function RecordOf(row: RatingRow, pred: BookId -> real): Recommendation
  {
    Recommendation(row.bookId, row.title, row.author, row.category, row.cover, pred(row.bookId))
  }

  function ToSet(xs: seq<BookId>): set<BookId>
  {
    set x | x in xs
  }

  /** `df[df.book_id.isin(top)].drop_duplicates('book_id')` with the
      prediction mapped on, from row `i` on: the first row of each selected
      book, in query order. `seen` holds the books already emitted. */
  function EmitFrom(rows: seq<RatingRow>, top: seq<BookId>, seen: set<BookId>, pred: BookId -> real, i: nat): (r: seq<Recommendation>)
    requires i <= |rows|
    ensures forall e :: e in r ==> e.bookId in top && e.bookId !in seen && e.bookId in BookColumn(rows)
    decreases |rows| - i
  {
    if i == |rows| then []
    else
      var b := rows[i].bookId;
      assert BookColumn(rows)[i] == b;
      if b in top && b !in seen then
        [RecordOf(rows[i], pred)] + EmitFrom(rows, top, seen + {b}, pred, i + 1)
      else
        EmitFrom(rows, top, seen, pred, i + 1)
  }

  /** Every selected book met before row `i` has been emitted. */
  predicate SeenCovers(rows: seq<RatingRow>, top: seq<BookId>, seen: set<BookId>, i: nat)
    requires i <= |rows|
  {
    forall k :: 0 <= k < i && rows[k].bookId in top ==> rows[k].bookId in seen
  }

  /** Stepping over row `i` keeps `SeenCovers`. */
  lemma SeenCoversStep(rows: seq<RatingRow>, top: seq<BookId>, seen: set<BookId>, i: nat)
    requires i < |rows| && SeenCovers(rows, top, seen, i)
    ensures rows[i].bookId in top && rows[i].bookId !in seen ==> SeenCovers(rows, top, seen + {rows[i].bookId}, i + 1)
    ensures !(rows[i].bookId in top && rows[i].bookId !in seen) ==> SeenCovers(rows, top, seen, i + 1)
  {
  }

  lemma {:induction false} FirstRowMinimal(rows: seq<RatingRow>, b: BookId, i: nat)
    requires i < |rows| && rows[i].bookId == b
    ensures b in BookColumn(rows) && FirstRow(rows, b) <= i
    decreases i
  {
    assert BookColumn(rows)[i] == b;
    if rows[0].bookId != b {
      FirstRowMinimal(rows[1..], b, i - 1);
    }
  }

  /** A book still unseen at row `i` has its first row at `i` or later. */
  lemma UnseenComesLater(rows: seq<RatingRow>, top: seq<BookId>, seen: set<BookId>, i: nat, b: BookId)
    requires i <= |rows| && SeenCovers(rows, top, seen, i)
    requires b in top && b !in seen && b in BookColumn(rows)
    ensures FirstRow(rows, b) >= i
  {
  }

  /** Each emitted record is built from the first row of its book. */
  lemma {:induction false} EmitFromRecords(rows: seq<RatingRow>, top: seq<BookId>, seen: set<BookId>, pred: BookId -> real, i: nat)
    requires i <= |rows| && SeenCovers(rows, top, seen, i)
    ensures forall e :: e in EmitFrom(rows, top, seen, pred, i) ==> e == RecordOf(rows[FirstRow(rows, e.bookId)], pred)
    decreases |rows| - i
  {
    if i < |rows| {
      var b := rows[i].bookId;
      SeenCoversStep(rows, top, seen, i);
      if b in top && b !in seen {
        FirstRowMinimal(rows, b, i);
        UnseenComesLater(rows, top, seen, i, b);
        EmitFromRecords(rows, top, seen + {b}, pred, i + 1);
        var rest := EmitFrom(rows, top, seen + {b}, pred, i + 1);
        assert forall e :: e in [RecordOf(rows[i], pred)] + rest ==> e == RecordOf(rows[i], pred) || e in rest;
      } else {
        EmitFromRecords(rows, top, seen, pred, i + 1);
      }
    }
  }

  /** No book is emitted twice. */
  lemma {:induction false} EmitFromDistinct(rows: seq<RatingRow>, top: seq<BookId>, seen: set<BookId>, pred: BookId -> real, i: nat)
    requires i <= |rows|
    ensures forall a, c :: 0 <= a < c < |EmitFrom(rows, top, seen, pred, i)| ==>
      EmitFrom(rows, top, seen, pred, i)[a].bookId != EmitFrom(rows, top, seen, pred, i)[c].bookId
    decreases |rows| - i
  {
    if i < |rows| {
      var b := rows[i].bookId;
      if b in top && b !in seen {
        var rest := EmitFrom(rows, top, seen + {b}, pred, i + 1);
        var r := [RecordOf(rows[i], pred)] + rest;
        EmitFromDistinct(rows, top, seen + {b}, pred, i + 1);
        forall a, c | 0 <= a < c < |r| ensures r[a].bookId != r[c].bookId {
          assert r[c] == rest[c - 1] && rest[c - 1] in rest;
          if a > 0 {
            assert r[a] == rest[a - 1];
          }
        }
      } else {
        EmitFromDistinct(rows, top, seen, pred, i + 1);
      }
    }
  }

  /** The first-row index of each record's book, in list order. */
  function FirstRowsOf(rows: seq<RatingRow>, r: seq<Recommendation>): (ks: seq<int>)
    requires forall e :: e in r ==> e.bookId in BookColumn(rows)
    ensures |ks| == |r|
    ensures forall k :: 0 <= k < |r| ==> ks[k] == FirstRow(rows, r[k].bookId)
  {
    if |r| == 0 then [] else [FirstRow(rows, r[0].bookId)] + FirstRowsOf(rows, r[1..])
  }

  /** Records come out in the order of their books' first rows. */
  lemma {:induction false} EmitFromOrdered(rows: seq<RatingRow>, top: seq<BookId>, seen: set<BookId>, pred: BookId -> real, i: nat)
    requires i <= |rows| && SeenCovers(rows, top, seen, i)
    ensures Increasing(FirstRowsOf(rows, EmitFrom(rows, top, seen, pred, i)))
    decreases |rows| - i
  {
    if i < |rows| {
      var b := rows[i].bookId;
      SeenCoversStep(rows, top, seen, i);
      if b in top && b !in seen {
        var x := RecordOf(rows[i], pred);
        var rest := EmitFrom(rows, top, seen + {b}, pred, i + 1);
        EmitFromOrdered(rows, top, seen + {b}, pred, i + 1);
        FirstRowMinimal(rows, b, i);
        var ks := FirstRowsOf(rows, rest);
        forall y | y in ks ensures FirstRow(rows, b) < y {
          var k :| 0 <= k < |ks| && ks[k] == y;
          assert rest[k] in rest;
          UnseenComesLater(rows, top, seen + {b}, i + 1, rest[k].bookId);
        }
        IncreasingCons(FirstRow(rows, b), ks);
        assert ([x] + rest)[1..] == rest;
        assert FirstRowsOf(rows, [x] + rest) == [FirstRow(rows, b)] + ks;
      } else {
        EmitFromOrdered(rows, top, seen, pred, i + 1);
      }
    }
  }



  /** Every selected, unseen book with a row at `i` or later is emitted. */
  lemma {:induction false} EmitFromComplete(rows: seq<RatingRow>, top: seq<BookId>, seen: set<BookId>, pred: BookId -> real,
                                            i: nat, k: nat)
    requires i <= k < |rows| && rows[k].bookId in top && rows[k].bookId !in seen
    ensures exists e :: e in EmitFrom(rows, top, seen, pred, i) && e.bookId == rows[k].bookId
    decreases |rows| - i
  {
    var b := rows[i].bookId;
    if b == rows[k].bookId {
      assert EmitFrom(rows, top, seen, pred, i)[0].bookId == b;
    } else if b in top && b !in seen {
      EmitFromComplete(rows, top, seen + {b}, pred, i + 1, k);
    } else {
      EmitFromComplete(rows, top, seen, pred, i + 1, k);
    }
  }

  lemma {:induction false} EmitFromBound(rows: seq<RatingRow>, top: seq<BookId>, seen: set<BookId>, pred: BookId -> real, i: nat)
    requires i <= |rows|
    ensures |EmitFrom(rows, top, seen, pred, i)| <= |ToSet(top) - seen|
    decreases |rows| - i
  {
    if i < |rows| {
      var b := rows[i].bookId;
      if b in top && b !in seen {
        EmitFromBound(rows, top, seen + {b}, pred, i + 1);
        assert ToSet(top) - (seen + {b}) == (ToSet(top) - seen) - {b};
      } else {
        EmitFromBound(rows, top, seen, pred, i + 1);
      }
    }
  }

  lemma {:induction false} ToSetBound(xs: seq<BookId>)
    ensures |ToSet(xs)| <= |xs|
    decreases |xs|
  {
    if |xs| > 0 {
      ToSetBound(xs[1..]);
      assert ToSet(xs) <= ToSet(xs[1..]) + {xs[0]};
      assert |ToSet(xs[1..]) + {xs[0]}| <= |ToSet(xs[1..])| + 1;
      SubsetCard(ToSet(xs), ToSet(xs[1..]) + {xs[0]});
    }
  }

  lemma SubsetCard(a: set<BookId>, b: set<BookId>)
    requires a <= b
    ensures |a| <= |b|
  {
    assert b == a + (b - a);
  }

  /** `recommend_collaborative(user_id, top_n)`: the query-ordered records of
      the `topN` best-predicted books the target has not rated above zero,
      or nothing for a user without ratings. */
  function RecommendCollaborative(rows: seq<RatingRow>, sim: (UserId, UserId) -> real, target: UserId, topN: nat): (r: seq<Recommendation>)
    ensures target !in UserColumn(rows) ==> r == []
    ensures target in UserColumn(rows) ==> |r| == Min(topN, |Unrated(rows, target)|)
    ensures forall i, j :: 0 <= i < j < |r| ==> r[i].bookId != r[j].bookId
    ensures forall e :: e in r ==> e.bookId in BookColumn(rows) && Cell(rows, target, e.bookId) <= 0.0
    ensures forall e :: e in r ==> e.predictedRating == Prediction(rows, sim, target, e.bookId)
    ensures forall e :: e in r ==> e == RecordOf(rows[FirstRow(rows, e.bookId)], PredictionOf(rows, sim, target))
    ensures forall i, j :: 0 <= i < j < |r| ==> FirstRow(rows, r[i].bookId) < FirstRow(rows, r[j].bookId)
    ensures forall b, e :: b in Unrated(rows, target) && e in r && (forall f :: f in r ==> f.bookId != b) ==>
      Prediction(rows, sim, target, b) <= e.predictedRating
  {
    if target !in UserColumn(rows) then []
    else
      var r := EmitFrom(rows, TopBooks(rows, sim, target, topN), {}, PredictionOf(rows, sim, target), 0);
      RecommendationFacts(rows, sim, target, topN, r);
      RecommendationBest(rows, sim, target, topN, r);
      EmittedRecords(rows, TopBooks(rows, sim, target, topN), PredictionOf(rows, sim, target), r);
      r
  }

  function PredictionOf(rows: seq<RatingRow>, sim: (UserId, UserId) -> real, target: UserId): BookId -> real
  {
    b => Prediction(rows, sim, target, b)
  }

  /** The emitted records, whatever the selection: one per book, each the
      record of its book's first row, in the order of those rows. */
  lemma EmittedRecords(rows: seq<RatingRow>, top: seq<BookId>, pred: BookId -> real, r: seq<Recommendation>)
    requires r == EmitFrom(rows, top, {}, pred, 0)
    ensures forall i, j :: 0 <= i < j < |r| ==> r[i].bookId != r[j].bookId
    ensures forall e :: e in r ==> e.bookId in BookColumn(rows) && e == RecordOf(rows[FirstRow(rows, e.bookId)], pred)
    ensures forall e :: e in r ==> e.predictedRating == pred(e.bookId)
    ensures forall i, j :: 0 <= i < j < |r| ==> FirstRow(rows, r[i].bookId) < FirstRow(rows, r[j].bookId)
  {
    EmitFromRecords(rows, top, {}, pred, 0);
    EmitFromDistinct(rows, top, {}, pred, 0);
    forall e | e in r ensures e.predictedRating == pred(e.bookId) {
      var k := FirstRow(rows, e.bookId);
    }
    EmitFromOrdered(rows, top, {}, pred, 0);
    var ks := FirstRowsOf(rows, r);
    forall i, j | 0 <= i < j < |r| ensures FirstRow(rows, r[i].bookId) < FirstRow(rows, r[j].bookId) {
      assert ks[i] < ks[j];
    }
  }

  /** The selection for a user with ratings: as many records as the
      smaller of `topN` and the number of unrated books, all of them unrated. */
  lemma RecommendationFacts(rows: seq<RatingRow>, sim: (UserId, UserId) -> real, target: UserId, topN: nat, r: seq<Recommendation>)
    requires r == EmitFrom(rows, TopBooks(rows, sim, target, topN), {}, PredictionOf(rows, sim, target), 0)
    ensures |r| == Min(topN, |Unrated(rows, target)|)
    ensures forall e :: e in r ==> e.bookId in Unrated(rows, target)
  {
    var pred := PredictionOf(rows, sim, target);
    var unrated := Unrated(rows, target);
    var ranked := SortDesc(unrated, pred);
    var n := if |ranked| < topN then |ranked| else topN;
    assert ranked[..n] == TopBooks(rows, sim, target, topN);
    SelectionFacts(rows, unrated, ranked, n, pred, r);
  }

  /** No unrated book left out is predicted higher than a selected one. */
  lemma RecommendationBest(rows: seq<RatingRow>, sim: (UserId, UserId) -> real, target: UserId, topN: nat, r: seq<Recommendation>)
    requires r == EmitFrom(rows, TopBooks(rows, sim, target, topN), {}, PredictionOf(rows, sim, target), 0)
    ensures forall b, e :: b in Unrated(rows, target) && e in r && (forall f :: f in r ==> f.bookId != b) ==>
      Prediction(rows, sim, target, b) <= e.predictedRating
  {
    var pred := PredictionOf(rows, sim, target);
    var unrated := Unrated(rows, target);
    var ranked := SortDesc(unrated, pred);
    var n := if |ranked| < topN then |ranked| else topN;
    assert ranked[..n] == TopBooks(rows, sim, target, topN);
    SelectionFacts(rows, unrated, ranked, n, pred, r);
    forall b, e | b in unrated && e in r && (forall f :: f in r ==> f.bookId != b)
      ensures Prediction(rows, sim, target, b) <= e.predictedRating
    {
      assert pred(b) <= e.predictedRating;
    }
  }

  lemma SelectionFacts(rows: seq<RatingRow>, unrated: seq<BookId>, ranked: seq<BookId>, n: nat, pred: BookId -> real, r: seq<Recommendation>)
    requires Increasing(unrated) && forall b :: b in unrated ==> b in BookColumn(rows)
    requires n <= |ranked| && SortedBy(ranked, pred) && multiset(ranked) == multiset(unrated)
    requires r == EmitFrom(rows, ranked[..n], {}, pred, 0)
    ensures |r| == n
    ensures forall e :: e in r ==> e.bookId in unrated
    ensures forall b, e :: b in unrated && e in r && (forall f :: f in r ==> f.bookId != b) ==> pred(b) <= e.predictedRating
  {
    var top := ranked[..n];
    EmitFromBound(rows, top, {}, pred, 0);
    EmittedRecords(rows, top, pred, r);
    assert ToSet(top) - {} == ToSet(top);
    ToSetBound(top);
    PermutationOfIncreasingIsDistinct(unrated, ranked);
    forall b | b in top && b in BookColumn(rows) ensures exists e :: e in r && e.bookId == b {
      var k := FirstRow(rows, b);
      EmitFromComplete(rows, top, {}, pred, 0, k);
    }
    forall e | e in r ensures e.bookId in unrated {
      assert e.bookId in multiset(ranked);
    }
    TopIsPrefixOfRanking(rows, unrated, ranked, n, pred, r);
  }

  function Min(a: nat, b: nat): nat
  {
    if a < b then a else b
  }

  lemma TopIsPrefixOfRanking(rows: seq<RatingRow>, unrated: seq<BookId>, ranked: seq<BookId>, n: nat, pred: BookId -> real, r: seq<Recommendation>)
    requires n <= |ranked|
    requires SortedBy(ranked, pred) && multiset(ranked) == multiset(unrated)
    requires forall i, j :: 0 <= i < j < |ranked| ==> ranked[i] != ranked[j]
    requires forall b :: b in unrated ==> b in BookColumn(rows)
    requires forall e :: e in r ==> e.bookId in ranked[..n] && e.predictedRating == pred(e.bookId)
    requires forall b :: b in ranked[..n] && b in BookColumn(rows) ==> exists e :: e in r && e.bookId == b
    requires |r| <= n
    ensures |r| == n
    ensures forall b, e :: b in unrated && e in r && (forall f :: f in r ==> f.bookId != b) ==> pred(b) <= e.predictedRating
  {
    forall b, e | b in unrated && e in r && (forall f :: f in r ==> f.bookId != b)
      ensures pred(b) <= e.predictedRating
    {
      assert b in multiset(ranked);
      var k :| 0 <= k < |ranked| && ranked[k] == b;
      var j :| 0 <= j < n && ranked[j] == e.bookId;
      if k < n {
        assert false;
      }
      assert pred(ranked[j]) >= pred(ranked[k]);
    }
    forall b | b in ranked[..n] ensures exists e :: e in r && e.bookId == b {
      assert b in multiset(ranked);
      assert b in multiset(unrated);
    }
    EmittedAll(ranked[..n], r);
  }

  function IdSet(r: seq<Recommendation>): set<BookId>
  {
    set e | e in r :: e.bookId
  }

  lemma {:induction false} IdSetBound(r: seq<Recommendation>)
    ensures |IdSet(r)| <= |r|
    decreases |r|
  {
    if |r| > 0 {
      IdSetBound(r[1..]);
      assert IdSet(r) <= IdSet(r[1..]) + {r[0].bookId};
      SubsetCard(IdSet(r), IdSet(r[1..]) + {r[0].bookId});
    }
  }

  lemma {:induction false} DistinctToSetCard(xs: seq<BookId>)
    requires forall i, j :: 0 <= i < j < |xs| ==> xs[i] != xs[j]
    ensures |ToSet(xs)| == |xs|
    decreases |xs|
  {
    if |xs| > 0 {
      DistinctToSetCard(xs[1..]);
      assert ToSet(xs) == ToSet(xs[1..]) + {xs[0]};
      assert xs[0] !in ToSet(xs[1..]);
    }
  }

  /** Records that name every one of `top`'s distinct books are at least
      as many as those books. */
  lemma EmittedAll(top: seq<BookId>, r: seq<Recommendation>)
    requires forall i, j :: 0 <= i < j < |top| ==> top[i] != top[j]
    requires forall b :: b in top ==> exists e :: e in r && e.bookId == b
    ensures |r| >= |top|
  {
    DistinctToSetCard(top);
    forall b | b in ToSet(top) ensures b in IdSet(r) {
      var e :| e in r && e.bookId == b;
    }
    SubsetCard(ToSet(top), IdSet(r));
    IdSetBound(r);
  }

  /** A reordering of a strictly increasing sequence has no repeats. */
  lemma PermutationOfIncreasingIsDistinct(a: seq<int>, b: seq<int>)
    requires Increasing(a) && multiset(a) == multiset(b)
    ensures forall i, j :: 0 <= i < j < |b| ==> b[i] != b[j]
  {
    forall i, j | 0 <= i < j < |b| ensures b[i] != b[j] {
      if b[i] == b[j] {
        var x := b[i];
        assert b == b[..j] + b[j..];
        assert x in b[..j];
        assert x in b[j..];
        assert multiset(b)[x] == multiset(b[..j])[x] + multiset(b[j..])[x];
        assert multiset(b)[x] >= 2;
        assert x in multiset(a);
        IncreasingCountsOnce(a, x);
        assert false;
      }
    }
  }
}
