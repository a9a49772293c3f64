/** The hybrid blender: content-based neighbours of the user's most recent
    books and collaborative predictions are scored on one scale, merged so
    that each title appears once (its first occurrence wins), sorted by
    score and cut to twelve entries. */
module Hybrid {
  import opened Wrappers
  import opened Sorting
  import Collaborative

  /** A recently read book used as a content query. */
  datatype Seed = Seed(title: string, author: string)

  /** One nearest neighbour returned by the content index. */
  datatype ContentRec = ContentRec(title: string, author: string, cover: Option<string>, similarity: real)

  /** One merged entry with its hybrid score. */
  datatype Scored = Scored(title: string, author: string, cover: Option<string>, score: real)

  const SeedLimit: nat := 4
  const ContentTopN: nat := 10
  const CollabTopN: nat := 5
  const ResultLimit: nat := 12
  const DefaultAlpha: real := 0.8

  /** The content index: nearest books to a title and author, at most `k`. */
  type Nearest = (string, string, nat) -> seq<ContentRec>

  function Query(nearest: Nearest, s: Seed): seq<ContentRec>
  {
    nearest(s.title, s.author, ContentTopN)
  }

  /** The neighbours of every seed, concatenated in seed order. */
  function Gather(seeds: seq<Seed>, nearest: Nearest): (r: seq<ContentRec>)
    ensures forall c :: c in r ==> exists i :: 0 <= i < |seeds| && c in Query(nearest, seeds[i])
    ensures forall i, c :: 0 <= i < |seeds| && c in Query(nearest, seeds[i]) ==> c in r
  {
    if |seeds| == 0 then []
    else
      var rest := Gather(seeds[1..], nearest);
      assert forall i :: 1 <= i < |seeds| ==> seeds[i] == seeds[1..][i - 1];
      Query(nearest, seeds[0]) + rest
  }

  /** Content candidates: only the first four seeds are queried, ten
      neighbours each. */
  function ContentCandidates(seeds: seq<Seed>, nearest: Nearest): (r: seq<ContentRec>)
    ensures forall c :: c in r ==> exists i :: 0 <= i < |seeds| && i < SeedLimit && c in Query(nearest, seeds[i])
    ensures forall i, c :: 0 <= i < |seeds| && i < SeedLimit && c in Query(nearest, seeds[i]) ==> c in r
  {
    var q := if |seeds| <= SeedLimit then seeds else seeds[..SeedLimit];
    Gather(q, nearest)
  }

  /** Seeds after the fourth never influence the content candidates. */
  lemma LaterSeedsIgnored(seeds: seq<Seed>, more: seq<Seed>, nearest: Nearest)
    requires |seeds| >= SeedLimit
    ensures ContentCandidates(seeds + more, nearest) == ContentCandidates(seeds, nearest)
  {
    assert (seeds + more)[..SeedLimit] == seeds[..SeedLimit];
    if |seeds| == SeedLimit {
      assert seeds[..SeedLimit] == seeds;
    }
    if |more| == 0 {
      assert seeds + more == seeds;
    }
  }

  /** When the index honours its bound, there are at most forty content
      candidates. */
  lemma ContentCandidatesBound(seeds: seq<Seed>, nearest: Nearest)
    requires forall t, a, k :: |nearest(t, a, k)| <= k
    ensures |ContentCandidates(seeds, nearest)| <= SeedLimit * ContentTopN
  {
    var q := if |seeds| <= SeedLimit then seeds else seeds[..SeedLimit];
    GatherBound(q, nearest);
  }

  lemma {:induction false} GatherBound(seeds: seq<Seed>, nearest: Nearest)
    requires forall t, a, k :: |nearest(t, a, k)| <= k
    ensures |Gather(seeds, nearest)| <= |seeds| * ContentTopN
    decreases |seeds|
  {
    if |seeds| > 0 {
      GatherBound(seeds[1..], nearest);
      assert |Query(nearest, seeds[0])| <= ContentTopN;
    }
  }

  function ScoreContent(c: ContentRec, alpha: real): Scored
  {
    Scored(c.title, c.author, c.cover, alpha * c.similarity)
  }

  function ScoreCollab(c: Collaborative.Recommendation, alpha: real): Scored
  {
    Scored(c.title, c.author, c.cover, (1.0 - alpha) * c.predictedRating)
  }

  function ScoredContent(content: seq<ContentRec>, alpha: real): (r: seq<Scored>)
    ensures |r| == |content|
    ensures forall i :: 0 <= i < |r| ==> r[i] == ScoreContent(content[i], alpha)
  {
    seq(|content|, i requires 0 <= i < |content| => ScoreContent(content[i], alpha))
  }

  function ScoredCollab(collab: seq<Collaborative.Recommendation>, alpha: real): (r: seq<Scored>)
    ensures |r| == |collab|
    ensures forall i :: 0 <= i < |r| ==> r[i] == ScoreCollab(collab[i], alpha)
  {
    seq(|collab|, i requires 0 <= i < |collab| => ScoreCollab(collab[i], alpha))
  }

  /** Every scored candidate in merge order: content first, then collaborative. */
  function Candidates(content: seq<ContentRec>, collab: seq<Collaborative.Recommendation>, alpha: real): seq<Scored>
  {
    ScoredContent(content, alpha) + ScoredCollab(collab, alpha)
  }

  function Titles(xs: seq<Scored>): set<string>
  {
    if |xs| == 0 then {} else {xs[0].title} + Titles(xs[1..])
  }

  /** Position of the first entry titled `t`, or `|xs|` when there is none. */
  function TitleRank(xs: seq<Scored>, t: string): (k: nat)
    ensures k <= |xs|
    ensures k < |xs| ==> xs[k].title == t
  {
    if |xs| == 0 then 0
    else if xs[0].title == t then 0
    else 1 + TitleRank(xs[1..], t)
  }

  /** No entry titled `t` comes before `TitleRank(xs, t)`. */
  lemma {:induction false} TitleRankMinimal(xs: seq<Scored>, t: string, i: nat)
    requires i < |xs| && xs[i].title == t
    ensures TitleRank(xs, t) <= i
    decreases i
  {
    if i > 0 && xs[0].title != t {
      TitleRankMinimal(xs[1..], t, i - 1);
    }
  }

  /** A title is among `xs`'s titles exactly when some entry carries it. */
  lemma {:induction false} TitlesMembers(xs: seq<Scored>)
    ensures forall t :: t in Titles(xs) <==> TitleRank(xs, t) < |xs|
    ensures forall i :: 0 <= i < |xs| ==> xs[i].title in Titles(xs)
    decreases |xs|
  {
    if |xs| > 0 {
      TitlesMembers(xs[1..]);
      forall i | 0 < i < |xs| ensures xs[i].title in Titles(xs) {
        assert xs[i] == xs[1..][i - 1];
      }
    }
  }

  /** The merge loop: an entry whose title is already in `seen` is
      skipped, any other is appended and its title recorded. */
  function MergeLoop(xs: seq<Scored>, seen: set<string>): seq<Scored>
  {
    if |xs| == 0 then []
    else if xs[0].title in seen then MergeLoop(xs[1..], seen)
    else [xs[0]] + MergeLoop(xs[1..], seen + {xs[0].title})
  }

  /** The two loops of the blender, sharing one `seen` set: after the
      content loop every content title has been seen. */
  function Merge(content: seq<ContentRec>, collab: seq<Collaborative.Recommendation>, alpha: real): seq<Scored>
  {
    var cs := ScoredContent(content, alpha);
    MergeLoop(cs, {}) + MergeLoop(ScoredCollab(collab, alpha), Titles(cs))
  }

  /** Reference definition of the merge: keep exactly the entries that are
      the first with their title, in candidate order. */
  function FirstOccurrences(xs: seq<Scored>, i: nat): (r: seq<Scored>)
    requires i <= |xs|
    ensures forall p :: 0 <= p < |r| ==> i <= TitleRank(xs, r[p].title) < |xs| && r[p] == xs[TitleRank(xs, r[p].title)]
    decreases |xs| - i
  {
    if i == |xs| then []
    else (if TitleRank(xs, xs[i].title) == i then [xs[i]] else []) + FirstOccurrences(xs, i + 1)
  }

  /** Every entry that is the first with its title is kept. */
  lemma {:induction false} FirstOccurrencesComplete(xs: seq<Scored>, i: nat, k: nat)
    requires i <= k < |xs| && TitleRank(xs, xs[k].title) == k
    ensures xs[k] in FirstOccurrences(xs, i)
    decreases k - i
  {
    if i < k {
      FirstOccurrencesComplete(xs, i + 1, k);
    }
  }

  /** The first occurrences appear in candidate order. */
  lemma {:induction false} FirstOccurrencesOrdered(xs: seq<Scored>, i: nat, a: nat, b: nat)
    requires i <= |xs| && a < b < |FirstOccurrences(xs, i)|
    ensures TitleRank(xs, FirstOccurrences(xs, i)[a].title) < TitleRank(xs, FirstOccurrences(xs, i)[b].title)
    decreases |xs| - i
  {
    var r := FirstOccurrences(xs, i);
    var rest := FirstOccurrences(xs, i + 1);
    if TitleRank(xs, xs[i].title) == i {
      assert r == [xs[i]] + rest;
      assert r[b] == rest[b - 1];
      if a == 0 {
        assert r[a] == xs[i];
      } else {
        assert r[a] == rest[a - 1];
        FirstOccurrencesOrdered(xs, i + 1, a - 1, b - 1);
      }
    } else {
      assert r == rest;
      FirstOccurrencesOrdered(xs, i + 1, a, b);
    }
  }

  /** A title has been seen before position `i` exactly when its first
      occurrence lies before `i`. */
  lemma TitlesOfPrefix(xs: seq<Scored>, i: nat)
    requires i <= |xs|
    ensures forall t :: t in Titles(xs[..i]) <==> TitleRank(xs, t) < i
  {
    var p := xs[..i];
    TitlesMembers(p);
    forall t ensures t in Titles(p) <==> TitleRank(xs, t) < i {
      if t in Titles(p) {
        assert xs[TitleRank(p, t)] == p[TitleRank(p, t)];
        TitleRankMinimal(xs, t, TitleRank(p, t));
      }
      if TitleRank(xs, t) < i {
        assert p[TitleRank(xs, t)] == xs[TitleRank(xs, t)];
      }
    }
  }

  /** Stepping the loop over `xs[i]` adds its title to the seen set; the
      title was seen already exactly when `xs[i]` is not its first occurrence. */
  lemma SeenStep(xs: seq<Scored>, i: nat)
    requires i < |xs|
    ensures Titles(xs[..i + 1]) == Titles(xs[..i]) + {xs[i].title}
    ensures xs[i].title in Titles(xs[..i]) <==> TitleRank(xs, xs[i].title) != i
  {
    var t := xs[i].title;
    TitlesOfPrefix(xs, i);
    TitlesOfPrefix(xs, i + 1);
    TitleRankMinimal(xs, t, i);
    forall u ensures u in Titles(xs[..i + 1]) <==> u in Titles(xs[..i]) + {t} {
      if TitleRank(xs, u) == i {
        assert u == t;
      }
    }
  }

  /** The seen-set loop computes exactly the first occurrences. */
  lemma {:induction false} MergeLoopIsFirstOccurrences(xs: seq<Scored>, i: nat)
    requires i <= |xs|
    ensures MergeLoop(xs[i..], Titles(xs[..i])) == FirstOccurrences(xs, i)
    decreases |xs| - i
  {
    if i < |xs| {
      MergeLoopIsFirstOccurrences(xs, i + 1);
      SeenStep(xs, i);
      var t := xs[i].title;
      var seen := Titles(xs[..i]);
      assert xs[i..][0] == xs[i] && xs[i..][1..] == xs[i + 1..];
      if t in seen {
        assert seen + {t} == seen;
        assert MergeLoop(xs[i..], seen) == MergeLoop(xs[i + 1..], seen);
        assert FirstOccurrences(xs, i) == FirstOccurrences(xs, i + 1);
      } else {
        assert MergeLoop(xs[i..], seen) == [xs[i]] + MergeLoop(xs[i + 1..], seen + {t});
        assert FirstOccurrences(xs, i) == [xs[i]] + FirstOccurrences(xs, i + 1);
      }
    } else {
      assert xs[i..] == [];
    }
  }

  /** Running the content loop and then the collaborative loop with the
      same `seen` set is one loop over the concatenation. */
  lemma {:induction false} MergeLoopAppend(a: seq<Scored>, b: seq<Scored>, seen: set<string>)
    ensures MergeLoop(a + b, seen) == MergeLoop(a, seen) + MergeLoop(b, seen + Titles(a))
    decreases |a|
  {
    if |a| > 0 {
      assert (a + b)[0] == a[0] && (a + b)[1..] == a[1..] + b;
      if a[0].title in seen {
        MergeLoopAppend(a[1..], b, seen);
        assert seen + Titles(a[1..]) == seen + Titles(a);
      } else {
        MergeLoopAppend(a[1..], b, seen + {a[0].title});
        assert seen + {a[0].title} + Titles(a[1..]) == seen + Titles(a);
      }
    } else {
      assert a + b == b;
      assert seen + Titles(a) == seen;
      assert MergeLoop(a, seen) == [];
    }
  }

  /** The merged list is the list of first occurrences of all candidates. */
  lemma MergeIsFirstOccurrences(content: seq<ContentRec>, collab: seq<Collaborative.Recommendation>, alpha: real)
    ensures Merge(content, collab, alpha) == FirstOccurrences(Candidates(content, collab, alpha), 0)
  {
    var cs := ScoredContent(content, alpha);
    var xs := Candidates(content, collab, alpha);
    MergeLoopAppend(cs, ScoredCollab(collab, alpha), {});
    assert {} + Titles(cs) == Titles(cs);
    MergeLoopIsFirstOccurrences(xs, 0);
    assert xs[0..] == xs && xs[..0] == [];
    assert Titles(xs[..0]) == {};
  }

  /** The first occurrences appear in the order in which their titles
      first appear among the candidates. */
  lemma FirstOccurrencesInOrder(xs: seq<Scored>)
    ensures forall a, b :: 0 <= a < b < |FirstOccurrences(xs, 0)| ==>
      TitleRank(xs, FirstOccurrences(xs, 0)[a].title) < TitleRank(xs, FirstOccurrences(xs, 0)[b].title)
  {
    var m := FirstOccurrences(xs, 0);
    forall a, b | 0 <= a < b < |m| ensures TitleRank(xs, m[a].title) < TitleRank(xs, m[b].title) {
      FirstOccurrencesOrdered(xs, 0, a, b);
    }
  }

  /** No title is kept twice. */
  lemma FirstOccurrencesDistinct(xs: seq<Scored>)
    ensures Injective(FirstOccurrences(xs, 0), TitleOf)
  {
    var m := FirstOccurrences(xs, 0);
    forall a, b | 0 <= a < b < |m| ensures TitleOf(m[a]) != TitleOf(m[b]) {
      FirstOccurrencesOrdered(xs, 0, a, b);
    }
  }

  /** Every title of the candidates is kept, and no other. */
  lemma FirstOccurrencesTitles(xs: seq<Scored>)
    ensures Titles(FirstOccurrences(xs, 0)) == Titles(xs)
  {
    var m := FirstOccurrences(xs, 0);
    TitlesMembers(xs);
    TitlesMembers(m);
    forall t | t in Titles(xs) ensures t in Titles(m) {
      var k := TitleRank(xs, t);
      FirstOccurrencesComplete(xs, 0, k);
      var p :| 0 <= p < |m| && m[p] == xs[k];
    }
    forall t | t in Titles(m) ensures t in Titles(xs) {
      var p := TitleRank(m, t);
      assert m[p] == xs[TitleRank(xs, m[p].title)];
    }
  }

  /** A merged entry is the first candidate carrying its title. */
  lemma MergedIsFirst(content: seq<ContentRec>, collab: seq<Collaborative.Recommendation>, alpha: real, e: Scored)
    requires e in Merge(content, collab, alpha)
    ensures TitleRank(Candidates(content, collab, alpha), e.title) < |Candidates(content, collab, alpha)|
    ensures e == Candidates(content, collab, alpha)[TitleRank(Candidates(content, collab, alpha), e.title)]
  {
    var xs := Candidates(content, collab, alpha);
    MergeIsFirstOccurrences(content, collab, alpha);
    var p :| 0 <= p < |FirstOccurrences(xs, 0)| && FirstOccurrences(xs, 0)[p] == e;
  }

  /** First occurrence wins: a title offered by the content index keeps
      alpha times the similarity of its first content entry, whatever the
      collaborative side predicts; a collaborative-only title gets
      (1 - alpha) times the prediction of its first collaborative entry. */
  lemma FirstOccurrenceWins(content: seq<ContentRec>, collab: seq<Collaborative.Recommendation>, alpha: real, e: Scored)
    requires e in Merge(content, collab, alpha)
    ensures e.title in Titles(ScoredContent(content, alpha)) ==>
      TitleRank(ScoredContent(content, alpha), e.title) < |content| &&
      e.score == alpha * content[TitleRank(ScoredContent(content, alpha), e.title)].similarity
    ensures e.title !in Titles(ScoredContent(content, alpha)) ==>
      TitleRank(ScoredCollab(collab, alpha), e.title) < |collab| &&
      e.score == (1.0 - alpha) * collab[TitleRank(ScoredCollab(collab, alpha), e.title)].predictedRating
  {
    var cs := ScoredContent(content, alpha);
    var ks := ScoredCollab(collab, alpha);
    var xs := Candidates(content, collab, alpha);
    assert xs == cs + ks;
    MergedIsFirst(content, collab, alpha, e);
    RankOfAppend(cs, ks, e.title);
    var k := TitleRank(xs, e.title);
    if e.title in Titles(cs) {
      assert e == xs[k] == cs[k];
    } else {
      assert e == xs[k] == ks[k - |cs|];
    }
  }

  lemma {:induction false} RankOfAppend(a: seq<Scored>, b: seq<Scored>, t: string)
    ensures t in Titles(a) ==> TitleRank(a + b, t) == TitleRank(a, t) < |a|
    ensures t !in Titles(a) ==> TitleRank(a + b, t) == |a| + TitleRank(b, t)
    decreases |a|
  {
    if |a| > 0 {
      assert (a + b)[0] == a[0] && (a + b)[1..] == a[1..] + b;
      RankOfAppend(a[1..], b, t);
    } else {
      assert a + b == b;
    }
  }

  function Take(s: seq<Scored>, n: nat): (r: seq<Scored>)
    ensures |r| == if |s| < n then |s| else n
    ensures r == s[..|r|]
  {
    if |s| <= n then s else s[..n]
  }

  function Score(e: Scored): real
  {
    e.score
  }

  /** Merge, stable sort by score (largest first) and keep twelve. */
  function Blend(content: seq<ContentRec>, collab: seq<Collaborative.Recommendation>, alpha: real): (r: seq<Scored>)
    ensures |r| <= ResultLimit
    ensures |r| == if |Merge(content, collab, alpha)| < ResultLimit then |Merge(content, collab, alpha)| else ResultLimit
    ensures SortedBy(r, Score)
    ensures forall e :: e in r ==> e in Merge(content, collab, alpha)
  {
    var sorted := SortDesc(Merge(content, collab, alpha), Score);
    var r := Take(sorted, ResultLimit);
    forall e | e in r ensures e in Merge(content, collab, alpha) {
      assert e in sorted;
      assert e in multiset(sorted);
    }
    r
  }

  /** The blended list never repeats a title, and every entry is the first
      candidate carrying its title. */
  lemma BlendDistinct(content: seq<ContentRec>, collab: seq<Collaborative.Recommendation>, alpha: real)
    ensures forall i, j :: 0 <= i < j < |Blend(content, collab, alpha)| ==>
      Blend(content, collab, alpha)[i].title != Blend(content, collab, alpha)[j].title
    ensures forall i :: 0 <= i < |Blend(content, collab, alpha)| ==>
      TitleRank(Candidates(content, collab, alpha), Blend(content, collab, alpha)[i].title) < |Candidates(content, collab, alpha)| &&
      Blend(content, collab, alpha)[i] == Candidates(content, collab, alpha)[TitleRank(Candidates(content, collab, alpha), Blend(content, collab, alpha)[i].title)]
  {
    var xs := Candidates(content, collab, alpha);
    var m := Merge(content, collab, alpha);
    var sorted := SortDesc(m, Score);
    var r := Blend(content, collab, alpha);
    MergeIsFirstOccurrences(content, collab, alpha);
    FirstOccurrencesDistinct(xs);
    PermutationKeepsInjective(sorted, m, TitleOf);
    assert r == sorted[..|r|];
    forall i, j | 0 <= i < j < |r| ensures r[i].title != r[j].title {
      assert r[i] == sorted[i] && r[j] == sorted[j];
      assert TitleOf(sorted[i]) != TitleOf(sorted[j]);
    }
    forall i | 0 <= i < |r| ensures TitleRank(xs, r[i].title) < |xs| && r[i] == xs[TitleRank(xs, r[i].title)] {
      MergedIsFirst(content, collab, alpha, r[i]);
    }
  }

  function TitleOf(e: Scored): string
  {
    e.title
  }

  /** The twelve kept entries are the best: a merged title left out scores
      no higher than any kept entry. */
  lemma BlendKeepsBest(content: seq<ContentRec>, collab: seq<Collaborative.Recommendation>, alpha: real, x: Scored, i: nat)
    requires x in Merge(content, collab, alpha) && x.title !in Titles(Blend(content, collab, alpha))
    requires i < |Blend(content, collab, alpha)|
    ensures x.score <= Blend(content, collab, alpha)[i].score
  {
    var sorted := SortDesc(Merge(content, collab, alpha), Score);
    assert x in multiset(sorted);
    PrefixKeepsBest(sorted, |Blend(content, collab, alpha)|, x, i);
  }

  /** In a sequence sorted by score, an entry whose title is missing from
      a prefix scores no higher than anything in that prefix. */
  lemma PrefixKeepsBest(sorted: seq<Scored>, n: nat, x: Scored, i: nat)
    requires SortedBy(sorted, Score) && i < n <= |sorted|
    requires x in sorted && x.title !in Titles(sorted[..n])
    ensures x.score <= sorted[i].score
  {
    var k :| 0 <= k < |sorted| && sorted[k] == x;
    if k < n {
      assert sorted[..n][k] == x;
      TitleInTitles(sorted[..n], k);
      assert false;
    }
    assert Score(sorted[i]) >= Score(sorted[k]);
  }

  lemma {:induction false} TitleInTitles(xs: seq<Scored>, i: nat)
    requires i < |xs|
    ensures xs[i].title in Titles(xs)
    decreases i
  {
    if i > 0 {
      assert xs[i] == xs[1..][i - 1];
      TitleInTitles(xs[1..], i - 1);
    }
  }

  /** Ties keep merge order: of two kept entries with equal scores, the one
      whose title was seen first comes first, so content entries precede
      collaborative ones. */
  lemma BlendStable(content: seq<ContentRec>, collab: seq<Collaborative.Recommendation>, alpha: real)
    ensures forall i, j ::
      (0 <= i < j < |Blend(content, collab, alpha)| &&
       Blend(content, collab, alpha)[i].score == Blend(content, collab, alpha)[j].score) ==>
      TitleRank(Candidates(content, collab, alpha), Blend(content, collab, alpha)[i].title) <
      TitleRank(Candidates(content, collab, alpha), Blend(content, collab, alpha)[j].title)
  {
    var m := Merge(content, collab, alpha);
    var xs := Candidates(content, collab, alpha);
    var rank := (e: Scored) => TitleRank(xs, e.title);
    var sorted := SortDesc(m, Score);
    var r := Blend(content, collab, alpha);
    MergeIsFirstOccurrences(content, collab, alpha);
    FirstOccurrencesInOrder(xs);
    assert RankIncreasing(m, rank);
    SortDescStable(m, Score, rank);
    forall i, j | 0 <= i < j < |r| && r[i].score == r[j].score ensures TitleRank(xs, r[i].title) < TitleRank(xs, r[j].title) {
      assert r[i] == sorted[i] && r[j] == sorted[j];
      assert Score(sorted[i]) == Score(sorted[j]);
    }
  }

  /** The blender end to end: the first four seeds are queried for ten
      neighbours each and the user's collaborative filter for five books. */
  function HybridRecommend(rows: seq<Collaborative.RatingRow>, sim: (Collaborative.UserId, Collaborative.UserId) -> real,
                           userId: Collaborative.UserId, seeds: seq<Seed>, alpha: real, nearest: Nearest): (r: seq<Scored>)
    ensures |r| <= ResultLimit
    ensures SortedBy(r, Score)
    ensures forall e :: e in r ==>
      (exists c :: c in ContentCandidates(seeds, nearest) && e == ScoreContent(c, alpha)) ||
      (exists c :: c in Collaborative.RecommendCollaborative(rows, sim, userId, CollabTopN) && e == ScoreCollab(c, alpha))
  {
    var content := ContentCandidates(seeds, nearest);
    var collab := Collaborative.RecommendCollaborative(rows, sim, userId, CollabTopN);
    var r := Blend(content, collab, alpha);
    forall e | e in r ensures
      (exists c :: c in content && e == ScoreContent(c, alpha)) ||
      (exists c :: c in collab && e == ScoreCollab(c, alpha))
    {
      CandidateOrigin(content, collab, alpha, e);
    }
    r
  }

  lemma CandidateOrigin(content: seq<ContentRec>, collab: seq<Collaborative.Recommendation>, alpha: real, e: Scored)
    requires e in Merge(content, collab, alpha)
    ensures (exists c :: c in content && e == ScoreContent(c, alpha)) ||
            (exists c :: c in collab && e == ScoreCollab(c, alpha))
  {
    var xs := Candidates(content, collab, alpha);
    MergedIsFirst(content, collab, alpha, e);
    var k := TitleRank(xs, e.title);
    if k < |content| {
      assert e == ScoreContent(content[k], alpha) && content[k] in content;
    } else {
      assert e == ScoreCollab(collab[k - |content|], alpha) && collab[k - |content|] in collab;
    }
  }

  /** With the default weight, a content match of similarity 0.9 scores
      0.72 while a collaborative-only prediction of 4.0 scores 0.8, so the
      collaborative entry is ranked first. */
  lemma MixedScalesExample()
    ensures Blend([ContentRec("A", "x", None, 0.9)], [Collaborative.Recommendation(7, "B", "y", "c", None, 4.0)], DefaultAlpha)
      == [Scored("B", "y", None, 0.8), Scored("A", "x", None, 0.72)]
  {
    var content := [ContentRec("A", "x", None, 0.9)];
    var collab := [Collaborative.Recommendation(7, "B", "y", "c", None, 4.0)];
    var a := Scored("A", "x", None, 0.72);
    var b := Scored("B", "y", None, 0.8);
    assert ScoredContent(content, DefaultAlpha) == [a];
    assert ScoredCollab(collab, DefaultAlpha) == [b];
    assert Titles([a]) == {"A"};
    assert MergeLoop([a], {}) == [a];
    assert MergeLoop([b], {"A"}) == [b];
    assert Merge(content, collab, DefaultAlpha) == [a, b];
    assert SortDesc([a, b], Score) == [b, a] by {
      assert SortDesc([b], Score) == [b];
      assert [a, b][1..] == [b];
    }
  }
}
