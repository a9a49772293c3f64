/** The all-users pass: preprocess the log once, then for every user, in
    order of first appearance, bundle the goal prediction, the reading-time
    rule, the weekly mission and the user's inactivity row. */
module Bundle {
  import opened Wrappers
  import opened Sessions
  import opened Goals
  import opened Timing
  import opened Inactivity
  import opened Mission

  datatype UserBundle = UserBundle(
    goalPrediction: Option<GoalPrediction>,
    rule: TimeRec,
    mission: WeeklyMission,
    inactivity: InactivityRow)

  datatype Entry = Entry(userId: int, bundle: UserBundle)

  /** Position of the first occurrence of `y` in `xs`. */
  function FirstIndex(xs: seq<int>, y: int): (k: nat)
    requires y in xs
    ensures k < |xs| && xs[k] == y
  {
    if xs[0] == y then 0 else 1 + FirstIndex(xs[1..], y)
  }

  lemma {:induction false} FirstIndexMinimal(xs: seq<int>, y: int, i: nat)
    requires i < |xs| && xs[i] == y
    ensures FirstIndex(xs, y) <= i
    decreases i
  {
    if xs[0] != y {
      FirstIndexMinimal(xs[1..], y, i - 1);
    }
  }

  /** The entries of `xs` from position `i` on that are the first with
      their value. */
  function FirstAppearances(xs: seq<int>, i: nat): (r: seq<int>)
    requires i <= |xs|
    ensures forall p :: 0 <= p < |r| ==> r[p] in xs && i <= FirstIndex(xs, r[p])
    decreases |xs| - i
  {
    if i == |xs| then []
    else (if FirstIndex(xs, xs[i]) == i then [xs[i]] else []) + FirstAppearances(xs, i + 1)
  }

  /** Every value whose first occurrence lies at or after `i` is kept. */
  lemma {:induction false} FirstAppearancesComplete(xs: seq<int>, i: nat, k: nat)
    requires i <= k < |xs| && FirstIndex(xs, xs[k]) == k
    ensures xs[k] in FirstAppearances(xs, i)
    decreases k - i
  {
    if i < k {
      FirstAppearancesComplete(xs, i + 1, k);
    }
  }

  /** Listed earlier means first seen earlier. */
  lemma {:induction false} FirstAppearancesOrdered(xs: seq<int>, i: nat, a: nat, b: nat)
    requires i <= |xs| && a < b < |FirstAppearances(xs, i)|
    ensures FirstIndex(xs, FirstAppearances(xs, i)[a]) < FirstIndex(xs, FirstAppearances(xs, i)[b])
    decreases |xs| - i
  {
    var r := FirstAppearances(xs, i);
    var rest := FirstAppearances(xs, i + 1);
    if FirstIndex(xs, xs[i]) == i {
      assert r == [xs[i]] + rest;
      assert r[b] == rest[b - 1];
      if a == 0 {
        assert r[a] == xs[i];
      } else {
        assert r[a] == rest[a - 1];
        FirstAppearancesOrdered(xs, i + 1, a - 1, b - 1);
      }
    } else {
      assert r == rest;
      FirstAppearancesOrdered(xs, i + 1, a, b);
    }
  }

  /** `unique()`: the distinct values in order of first appearance. */
  function Unique(xs: seq<int>): (r: seq<int>)
    ensures forall y :: y in r <==> y in xs
    ensures forall i, j :: 0 <= i < j < |r| ==> r[i] != r[j]
  {
    var r := FirstAppearances(xs, 0);
    forall y | y in xs ensures y in r {
      FirstAppearancesComplete(xs, 0, FirstIndex(xs, y));
    }
    forall i, j | 0 <= i < j < |r| ensures r[i] != r[j] {
      FirstAppearancesOrdered(xs, 0, i, j);
    }
    r
  }

  /** The values are listed in the order in which they first appear. */
  lemma UniqueOrdered(xs: seq<int>, a: nat, b: nat)
    requires a < b < |Unique(xs)|
    ensures FirstIndex(xs, Unique(xs)[a]) < FirstIndex(xs, Unique(xs)[b])
  {
    FirstAppearancesOrdered(xs, 0, a, b);
  }

  /** The user's row of the inactivity table. */
  function RowOf(rows: seq<InactivityRow>, u: int): Option<InactivityRow>
  {
    if |rows| == 0 then None
    else if rows[0].userId == u then Some(rows[0])
    else RowOf(rows[1..], u)
  }

  /** Looking a user up in the inactivity table finds the row computed for that user. */
  lemma RowOfFindsUser(ss: seq<Session>, thresholdDays: int, asOf: int, u: int)
    requires HasUser(ss, u)
    ensures RowOf(DetectInactivity(ss, thresholdDays, asOf), u) == Some(RowFor(ss, u, thresholdDays, asOf))
  {
    var rows := DetectInactivity(ss, thresholdDays, asOf);
    OneRowPerUser(ss, thresholdDays, asOf, u);
    var k :| 0 <= k < |rows| && rows[k].userId == u;
    RowOfAt(rows, u, k);
  }

  lemma {:induction false} RowOfAt(rows: seq<InactivityRow>, u: int, k: nat)
    requires k < |rows| && rows[k].userId == u
    requires forall i :: 0 <= i < k ==> rows[i].userId != u
    ensures RowOf(rows, u) == Some(rows[k])
    decreases k
  {
    if k > 0 {
      RowOfAt(rows[1..], u, k - 1);
    }
  }

  function EntryFor(ss: seq<Session>, goals: seq<GoalRow>, fit: Fitter, asOf: int, u: int): (e: Entry)
    ensures e.userId == u
  {
    var mine := OfUser(ss, u);
    Entry(u, UserBundle(
      RecommendGoals(u, goals, fit),
      RuleBasedTime(mine, DefaultMinSessions),
      Mission.Recommend(mine, Some(UserGoals(goals, u))),
      InactivityEntry(ss, asOf, u)))
  }

  /** The user's row of the inactivity table. Every listed user has one, so
      the placeholder row is never used. */
  function InactivityEntry(ss: seq<Session>, asOf: int, u: int): InactivityRow
  {
    match RowOf(DetectInactivity(ss, DefaultThresholdDays, asOf), u)
    case Some(x) => x
    case None => InactivityRow(u, 0, 0, false)
  }

  /** One value per user, in the order the users are listed. */
  function MapUsers<T>(us: seq<int>, f: int -> T): (r: seq<T>)
    ensures |r| == |us|
    ensures forall k :: 0 <= k < |us| ==> r[k] == f(us[k])
  {
    if |us| == 0 then [] else [f(us[0])] + MapUsers(us[1..], f)
  }

  /** Why the whole pass raises: preprocessing fails, or the monthly report,
      computed along the way, counts a `log_id` column the table lacks. */
  datatype PassError = PreprocessFailed(cause: PreprocessError) | MissingLogIdColumn

  /** `compute_all_recommendations`, with the regression and the reference
      instant passed in. Fails when preprocessing does, and otherwise when
      the log table has no `log_id` column; on success every listed user
      gets the bundle built from the preprocessed sessions. */
  function ComputeAll(frame: LogFrame, goals: seq<GoalRow>, fit: Fitter, asOf: int): (r: Result<seq<Entry>, PassError>)
    ensures r.Err? <==> Preprocess(frame).Err? || !frame.hasLogId
    ensures Preprocess(frame).Err? ==> r == Err(PreprocessFailed(Preprocess(frame).error))
    ensures Preprocess(frame).Ok? && !frame.hasLogId ==> r == Err(MissingLogIdColumn)
    ensures r.Ok? ==> |r.value| == |Unique(UserIds(Preprocess(frame).value))|
    ensures r.Ok? ==> forall k :: 0 <= k < |r.value| ==> r.value[k].userId == Unique(UserIds(Preprocess(frame).value))[k]
    ensures r.Ok? ==> forall k :: 0 <= k < |r.value| ==>
      r.value[k] == EntryFor(Preprocess(frame).value, goals, fit, asOf, r.value[k].userId)
  {
    match Preprocess(frame)
    case Err(e) => Err(PreprocessFailed(e))
    case Ok(ss) =>
      if !frame.hasLogId then Err(MissingLogIdColumn)
      else Ok(MapUsers(Unique(UserIds(ss)), u => EntryFor(ss, goals, fit, asOf, u)))
  }

  /** Every user with a session gets exactly one entry, and no one else does. */
  lemma OneEntryPerUser(frame: LogFrame, goals: seq<GoalRow>, fit: Fitter, asOf: int, u: int)
    requires Preprocess(frame).Ok? && frame.hasLogId
    ensures var es := ComputeAll(frame, goals, fit, asOf).value;
      HasUser(Preprocess(frame).value, u) <==> exists k :: 0 <= k < |es| && es[k].userId == u
    ensures var es := ComputeAll(frame, goals, fit, asOf).value;
      forall i, j :: 0 <= i < j < |es| ==> es[i].userId != es[j].userId
  {
    var ss := Preprocess(frame).value;
    UniqueUsers(ss, u);
    EntriesMatchUsers(ComputeAll(frame, goals, fit, asOf).value, Unique(UserIds(ss)), u);
  }

  /** Entries listed one per user of a repeat-free list name exactly those
      users, each once. */
  lemma EntriesMatchUsers(es: seq<Entry>, us: seq<int>, u: int)
    requires |es| == |us| && forall k :: 0 <= k < |us| ==> es[k].userId == us[k]
    requires forall i, j :: 0 <= i < j < |us| ==> us[i] != us[j]
    ensures u in us <==> exists k :: 0 <= k < |es| && es[k].userId == u
    ensures forall i, j :: 0 <= i < j < |es| ==> es[i].userId != es[j].userId
  {
    if u in us {
      var i :| 0 <= i < |us| && us[i] == u;
      assert es[i].userId == u;
    }
  }

  /** The users listed are exactly the users with a session. */
  lemma UniqueUsers(ss: seq<Session>, u: int)
    ensures HasUser(ss, u) <==> u in Unique(UserIds(ss))
  {
    if HasUser(ss, u) {
      var k :| 0 <= k < |ss| && ss[k].userId == u;
      assert UserIds(ss)[k] == u;
    }
    UserIdsHaveUser(ss);
  }

  /** What each user's bundle holds: the mission is never the cold-start
      default (the user has a session), the time rule is a cold start
      exactly below three sessions, and a goal prediction exists exactly
      from two goal rows on. */
  lemma EntryFacts(ss: seq<Session>, goals: seq<GoalRow>, fit: Fitter, asOf: int, u: int)
    requires HasUser(ss, u)
    ensures EntryFor(ss, goals, fit, asOf, u).bundle.mission.rationale != ColdStartDefault
    ensures EntryFor(ss, goals, fit, asOf, u).bundle.rule.reason == ColdStart <==> |OfUser(ss, u)| < DefaultMinSessions
    ensures EntryFor(ss, goals, fit, asOf, u).bundle.goalPrediction.None? <==> |UserGoals(goals, u)| < MinGoalRows
  {
    var k :| 0 <= k < |ss| && ss[k].userId == u;
    assert ss[k] in OfUser(ss, u);
  }

  /** Each user's inactivity entry is the user's own row of the inactivity
      table, flagged exactly when a full threshold has elapsed. */
  lemma EntryInactivity(ss: seq<Session>, goals: seq<GoalRow>, fit: Fitter, asOf: int, u: int)
    requires HasUser(ss, u)
    ensures EntryFor(ss, goals, fit, asOf, u).bundle.inactivity == RowFor(ss, u, DefaultThresholdDays, asOf)
    ensures EntryFor(ss, goals, fit, asOf, u).bundle.inactivity.inactive <==>
      asOf - LastRead(ss, u) >= DefaultThresholdDays * SecondsPerDay
  {
    RowOfFindsUser(ss, DefaultThresholdDays, asOf, u);
    InactiveIffElapsed(ss, u, DefaultThresholdDays, asOf);
  }
}
