/** Goal prediction for one user: three one-feature regressions over the
    user's goal history, each read at a fixed target and truncated to an
    integer, with a failure recorded instead of raised. The regression
    itself is a parameter. */
module Goals {
  import opened Wrappers
  import opened Numerics

  /** One row of the goals table. */
  datatype GoalRow = GoalRow(
    userId: int,
    targetMinutes: real,
    completedMinutes: real,
    targetBooks: real,
    completedBooks: real,
    targetReviews: real,
    completedReviews: real)

  /** Outcome of fitting a regression of `ys` on `xs` and predicting at one point. */
  datatype FitOutcome = Fitted(prediction: real) | FitFailed(message: string)

  /** Fits on (features, targets) and predicts at the given feature value. */
  type Fitter = (seq<real>, seq<real>, real) -> FitOutcome

  /** The prediction dictionary. Keys that were never set are `None`. */
  datatype GoalPrediction = GoalPrediction(
    minutes: Option<int>,
    books: Option<int>,
    reviews: Option<int>,
    error: Option<string>)

  const MinGoalRows: nat := 2
  const MinutesProbe: real := 300.0
  const BooksProbe: real := 5.0
  const ReviewsProbe: real := 3.0

  /** The goal rows of one user, in table order. */
  function UserGoals(goals: seq<GoalRow>, u: int): (r: seq<GoalRow>)
    ensures |r| <= |goals|
    ensures forall g :: g in r <==> g in goals && g.userId == u
  {
    if |goals| == 0 then []
    else
      var rest := UserGoals(goals[1..], u);
      assert forall g :: g in goals <==> g == goals[0] || g in goals[1..] by {
        assert goals == [goals[0]] + goals[1..];
      }
      if goals[0].userId == u then [goals[0]] + rest else rest
  }

  lemma {:induction false} UserGoalsAppend(a: seq<GoalRow>, b: seq<GoalRow>, u: int)
    ensures UserGoals(a + b, u) == UserGoals(a, u) + UserGoals(b, u)
    decreases |a|
  {
    if |a| == 0 {
      assert a + b == b;
    } else {
      assert (a + b)[0] == a[0] && (a + b)[1..] == a[1..] + b;
      UserGoalsAppend(a[1..], b, u);
    }
  }

  lemma {:induction false} UserGoalsNone(goals: seq<GoalRow>, u: int)
    requires forall k :: 0 <= k < |goals| ==> goals[k].userId != u
    ensures UserGoals(goals, u) == []
    decreases |goals|
  {
    if |goals| > 0 {
      UserGoalsNone(goals[1..], u);
    }
  }

  function TargetMinutes(gs: seq<GoalRow>): (r: seq<real>)
    ensures |r| == |gs| && forall k :: 0 <= k < |gs| ==> r[k] == gs[k].targetMinutes
  {
    if |gs| == 0 then [] else [gs[0].targetMinutes] + TargetMinutes(gs[1..])
  }

  function CompletedMinutes(gs: seq<GoalRow>): (r: seq<real>)
    ensures |r| == |gs| && forall k :: 0 <= k < |gs| ==> r[k] == gs[k].completedMinutes
  {
    if |gs| == 0 then [] else [gs[0].completedMinutes] + CompletedMinutes(gs[1..])
  }

  function TargetBooks(gs: seq<GoalRow>): (r: seq<real>)
    ensures |r| == |gs| && forall k :: 0 <= k < |gs| ==> r[k] == gs[k].targetBooks
  {
    if |gs| == 0 then [] else [gs[0].targetBooks] + TargetBooks(gs[1..])
  }

  function CompletedBooks(gs: seq<GoalRow>): (r: seq<real>)
    ensures |r| == |gs| && forall k :: 0 <= k < |gs| ==> r[k] == gs[k].completedBooks
  {
    if |gs| == 0 then [] else [gs[0].completedBooks] + CompletedBooks(gs[1..])
  }

  function TargetReviews(gs: seq<GoalRow>): (r: seq<real>)
    ensures |r| == |gs| && forall k :: 0 <= k < |gs| ==> r[k] == gs[k].targetReviews
  {
    if |gs| == 0 then [] else [gs[0].targetReviews] + TargetReviews(gs[1..])
  }

  function CompletedReviews(gs: seq<GoalRow>): (r: seq<real>)
    ensures |r| == |gs| && forall k :: 0 <= k < |gs| ==> r[k] == gs[k].completedReviews
  {
    if |gs| == 0 then [] else [gs[0].completedReviews] + CompletedReviews(gs[1..])
  }

  function MinutesFit(gs: seq<GoalRow>, fit: Fitter): FitOutcome
  {
    fit(TargetMinutes(gs), CompletedMinutes(gs), MinutesProbe)
  }

  function BooksFit(gs: seq<GoalRow>, fit: Fitter): FitOutcome
  {
    fit(TargetBooks(gs), CompletedBooks(gs), BooksProbe)
  }

  function ReviewsFit(gs: seq<GoalRow>, fit: Fitter): FitOutcome
  {
    fit(TargetReviews(gs), CompletedReviews(gs), ReviewsProbe)
  }

  /** `recommend_goals_for_user`. No answer for fewer than two goal rows;
      otherwise the three fits run in order, and the first failure stops
      the sequence, keeps what was already set and records its message. */
  function RecommendGoals(u: int, goals: seq<GoalRow>, fit: Fitter): (r: Option<GoalPrediction>)
    ensures r.None? <==> |UserGoals(goals, u)| < MinGoalRows
  {
    var gs := UserGoals(goals, u);
    if |gs| < MinGoalRows then None
    else
      match MinutesFit(gs, fit)
      case FitFailed(m) => Some(GoalPrediction(None, None, None, Some(m)))
      case Fitted(pm) =>
        match BooksFit(gs, fit)
        case FitFailed(m) => Some(GoalPrediction(Some(Trunc(pm)), None, None, Some(m)))
        case Fitted(pb) =>
          match ReviewsFit(gs, fit)
          case FitFailed(m) => Some(GoalPrediction(Some(Trunc(pm)), Some(Trunc(pb)), None, Some(m)))
          case Fitted(pr) => Some(GoalPrediction(Some(Trunc(pm)), Some(Trunc(pb)), Some(Trunc(pr)), None))
  }

  /** The shape of every answer: the keys are set in order, so each set
      value implies the earlier ones, and the error key is present exactly
      when the reviews value is missing. */
  lemma PredictionShape(u: int, goals: seq<GoalRow>, fit: Fitter)
    requires RecommendGoals(u, goals, fit).Some?
    ensures var p := RecommendGoals(u, goals, fit).value;
      && (p.books.Some? ==> p.minutes.Some?)
      && (p.reviews.Some? ==> p.books.Some?)
      && (p.error.Some? <==> p.reviews.None?)
  {
  }

  /** Each value is the truncated prediction of its own regression, and the
      error is the message of the first regression that failed. */
  lemma PredictionValues(u: int, goals: seq<GoalRow>, fit: Fitter)
    requires |UserGoals(goals, u)| >= MinGoalRows
    ensures RecommendGoals(u, goals, fit).Some?
    ensures MinutesFit(UserGoals(goals, u), fit).Fitted? <==> RecommendGoals(u, goals, fit).value.minutes.Some?
    ensures MinutesFit(UserGoals(goals, u), fit).Fitted? ==>
      RecommendGoals(u, goals, fit).value.minutes == Some(Trunc(MinutesFit(UserGoals(goals, u), fit).prediction))
    ensures MinutesFit(UserGoals(goals, u), fit).FitFailed? ==>
      RecommendGoals(u, goals, fit).value.error == Some(MinutesFit(UserGoals(goals, u), fit).message)
    ensures RecommendGoals(u, goals, fit).value.books.Some? <==>
      MinutesFit(UserGoals(goals, u), fit).Fitted? && BooksFit(UserGoals(goals, u), fit).Fitted?
    ensures RecommendGoals(u, goals, fit).value.books.Some? ==>
      RecommendGoals(u, goals, fit).value.books == Some(Trunc(BooksFit(UserGoals(goals, u), fit).prediction))
    ensures RecommendGoals(u, goals, fit).value.reviews.Some? <==>
      MinutesFit(UserGoals(goals, u), fit).Fitted? && BooksFit(UserGoals(goals, u), fit).Fitted? && ReviewsFit(UserGoals(goals, u), fit).Fitted?
    ensures RecommendGoals(u, goals, fit).value.reviews.Some? ==>
      RecommendGoals(u, goals, fit).value.reviews == Some(Trunc(ReviewsFit(UserGoals(goals, u), fit).prediction))
  {
  }

  /** Only the user's own rows matter: rows of other users, appended
      anywhere after, leave the answer unchanged. */
  lemma OtherUsersIgnored(u: int, goals: seq<GoalRow>, others: seq<GoalRow>, fit: Fitter)
    requires forall k :: 0 <= k < |others| ==> others[k].userId != u
    ensures RecommendGoals(u, goals + others, fit) == RecommendGoals(u, goals, fit)
  {
    UserGoalsAppend(goals, others, u);
    UserGoalsNone(others, u);
    assert UserGoals(goals + others, u) == UserGoals(goals, u);
  }

  /** With a fitter that always succeeds, every key is set and no error is recorded. */
  lemma AllFitsSucceed(u: int, goals: seq<GoalRow>, fit: Fitter)
    requires |UserGoals(goals, u)| >= MinGoalRows
    requires forall xs, ys, x :: fit(xs, ys, x).Fitted?
    ensures RecommendGoals(u, goals, fit).Some?
    ensures RecommendGoals(u, goals, fit).value.reviews.Some? && RecommendGoals(u, goals, fit).value.error.None?
  {
    var gs := UserGoals(goals, u);
    assert MinutesFit(gs, fit).Fitted?;
    assert BooksFit(gs, fit).Fitted?;
    assert ReviewsFit(gs, fit).Fitted?;
  }
}
