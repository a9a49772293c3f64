/** The weekly reading mission for one user: a base from the minutes read
    in the latest weeks, adjusted by how well recent minute goals were met,
    kept within fixed bounds, with a rationale string. */
module Mission {
  import opened Wrappers
  import opened Numerics
  import opened Sessions
  import opened Goals

  const ColdStartMinutes: int := 60
  const MinWeekly: int := 10
  const MaxWeekly: int := 2000
  const LowSuccess: real := 0.6
  const HighSuccess: real := 0.9
  const RecentGoalCount: nat := 3

  datatype Rationale =
    | ColdStartDefault
    | NoGoalInfo
    | LowSuccessRate(rate: real)
    | HighSuccessRate(rate: real)
    | AverageSuccessRate(rate: real)

  datatype WeeklyMission = WeeklyMission(weeklyMinutes: int, rationale: Rationale)

  // ---- two-decimal formatting of the rate ----

  function DigitChar(d: int): char
    requires 0 <= d < 10
  {
    "0123456789"[d]
  }

  function DigitValue(c: char): int
  {
    (c as int) - ('0' as int)
  }

  lemma DigitRoundTrip(d: int)
    requires 0 <= d < 10
    ensures DigitValue(DigitChar(d)) == d
    ensures '0' <= DigitChar(d) <= '9'
  {
    var ds := "0123456789";
    assert ds[0] == '0' && ds[1] == '1' && ds[2] == '2' && ds[3] == '3' && ds[4] == '4';
    assert ds[5] == '5' && ds[6] == '6' && ds[7] == '7' && ds[8] == '8' && ds[9] == '9';
  }

  /** Decimal digits of a natural number, without leading zeros. */
  function Digits(n: nat): (s: string)
    ensures |s| > 0
    ensures forall k :: 0 <= k < |s| ==> '0' <= s[k] <= '9'
    ensures |s| > 1 ==> s[0] != '0'
  {
    DigitRoundTrip(n % 10);
    if n < 10 then [DigitChar(n)]
    else
      DigitRoundTrip(n / 10 % 10);
      Digits(n / 10) + [DigitChar(n % 10)]
  }

  function ParseDigits(s: string): int
  {
    if |s| == 0 then 0 else ParseDigits(s[..|s| - 1]) * 10 + DigitValue(s[|s| - 1])
  }

  lemma {:induction false} DigitsRoundTrip(n: nat)
    ensures ParseDigits(Digits(n)) == n
    decreases n
  {
    DigitRoundTrip(n % 10);
    if n >= 10 {
      DigitsRoundTrip(n / 10);
      var s := Digits(n);
      assert s[..|s| - 1] == Digits(n / 10);
    }
  }

  /** Unsigned rendering of a count of hundredths: whole part, point, two digits. */
  function Hundredths(a: nat): (s: string)
    ensures |s| >= 4 && s[|s| - 3] == '.'
    ensures '0' <= s[0] <= '9'
  {
    DigitRoundTrip(a % 100 / 10);
    DigitRoundTrip(a % 10);
    Digits(a / 100) + "." + [DigitChar(a % 100 / 10), DigitChar(a % 10)]
  }

  /** `format(x, '.2f')`: the value rounded half to even to hundredths, with
      a minus sign whenever `x` is negative (also when it rounds to zero). */
  function Fixed2(x: real): (s: string)
    ensures |s| >= 4 && s[|s| - 3] == '.'
    ensures s[0] == '-' <==> x < 0.0
  {
    Render(RoundHalfEven(x * 100.0), x < 0.0)
  }

  /** A signed count of hundredths, with the sign chosen separately. */
  function Render(cents: int, negative: bool): (s: string)
    ensures |s| >= 4 && s[|s| - 3] == '.'
    ensures s[0] == '-' <==> negative
  {
    var body := Hundredths(if cents < 0 then -cents else cents);
    if negative then "-" + body else body
  }

  /** Reads back a two-decimal rendering as a signed count of hundredths. */
  function ParseFixed2(s: string): Option<int>
  {
    if |s| < 4 || s[|s| - 3] != '.' then None
    else
      var neg := s[0] == '-';
      var cents := Cents(if neg then s[1..|s| - 3] else s[..|s| - 3], s[|s| - 2], s[|s| - 1]);
      Some(if neg then -cents else cents)
  }

  /** Hundredths denoted by a whole part and two decimal digits. */
  function Cents(whole: string, tenths: char, hundredths: char): int
  {
    ParseDigits(whole) * 100 + DigitValue(tenths) * 10 + DigitValue(hundredths)
  }

  /** Parsing splits a rendering at the point. */
  lemma ParseUnsigned(d: string, x: char, y: char)
    requires |d| > 0 && d[0] != '-'
    ensures ParseFixed2(d + "." + [x, y]) == Some(Cents(d, x, y))
  {
    var s := d + "." + [x, y];
    assert s[..|s| - 3] == d && s[0] == d[0];
    assert s[|s| - 3] == '.' && s[|s| - 2] == x && s[|s| - 1] == y;
  }

  lemma ParseSigned(d: string, x: char, y: char)
    ensures ParseFixed2("-" + d + "." + [x, y]) == Some(-Cents(d, x, y))
  {
    var t := "-" + d + "." + [x, y];
    assert t[1..|t| - 3] == d && t[0] == '-';
    assert t[|t| - 3] == '.' && t[|t| - 2] == x && t[|t| - 1] == y;
  }

  lemma HundredthsSplit(a: nat)
    ensures a / 100 * 100 + a % 100 / 10 * 10 + a % 10 == a
  {
  }

  lemma HundredthsRoundTrip(a: nat)
    ensures ParseFixed2(Hundredths(a)) == Some(a as int)
    ensures ParseFixed2("-" + Hundredths(a)) == Some(-(a as int))
  {
    DigitRoundTrip(a % 100 / 10);
    DigitRoundTrip(a % 10);
    DigitsRoundTrip(a / 100);
    var d := Digits(a / 100);
    assert Hundredths(a) == d + "." + [DigitChar(a % 100 / 10), DigitChar(a % 10)];
    assert "-" + Hundredths(a) == "-" + d + "." + [DigitChar(a % 100 / 10), DigitChar(a % 10)];
    ParseUnsigned(d, DigitChar(a % 100 / 10), DigitChar(a % 10));
    ParseSigned(d, DigitChar(a % 100 / 10), DigitChar(a % 10));
    HundredthsSplit(a);
  }

  /** The rendering keeps the rounded value: parsing it back gives the rate
      in hundredths, rounded half to even. */
  lemma Fixed2RoundTrip(x: real)
    ensures ParseFixed2(Fixed2(x)) == Some(RoundHalfEven(x * 100.0))
  {
    RoundingKeepsSign(x * 100.0);
    RenderRoundTrip(RoundHalfEven(x * 100.0), x < 0.0);
  }

  lemma RenderRoundTrip(cents: int, negative: bool)
    requires negative ==> cents <= 0
    requires !negative ==> cents >= 0
    ensures ParseFixed2(Render(cents, negative)) == Some(cents)
  {
    var a: nat := if cents < 0 then -cents else cents;
    assert Render(cents, negative) == if negative then "-" + Hundredths(a) else Hundredths(a);
    HundredthsRoundTrip(a);
    assert (if negative then -(a as int) else a as int) == cents;
  }

  lemma RoundingKeepsSign(y: real)
    ensures y < 0.0 ==> RoundHalfEven(y) <= 0
    ensures y >= 0.0 ==> RoundHalfEven(y) >= 0
  {
  }

  /** The rationale as the source spells it. */
  function RationaleText(r: Rationale): string
  {
    match r
    case ColdStartDefault => "cold_start_default"
    case NoGoalInfo => "no_goal_info"
    case LowSuccessRate(x) => "low_success_rate(" + Fixed2(x) + ")_reduce"
    case HighSuccessRate(x) => "high_success_rate(" + Fixed2(x) + ")_increase"
    case AverageSuccessRate(x) => "avg_success_rate(" + Fixed2(x) + ")_small_inc"
  }

  // ---- the base from recent weeks ----

  /** Minutes read in each of the (up to) four latest ISO weeks. */
  function WeeklyTotals(ss: seq<Session>, ws: seq<int>): (r: seq<real>)
    ensures |r| == |ws|
    ensures forall k :: 0 <= k < |ws| ==> r[k] == MinutesInWeek(ss, ws[k])
  {
    if |ws| == 0 then [] else [MinutesInWeek(ss, ws[0])] + WeeklyTotals(ss, ws[1..])
  }

  /** The mean weekly minutes of the latest weeks, rounded half to even.
      A non-empty log always has a latest week, so the median-based
      fallback for a log without weeks never applies. */
  function Base(ss: seq<Session>): (b: int)
    requires |ss| > 0
  {
    RoundHalfEven(Mean(WeeklyTotals(ss, RecentWeeks(ss))))
  }

  lemma {:induction false} MinutesInWeekBounds(ss: seq<Session>, w: int)
    requires forall k :: 0 <= k < |ss| ==> ss[k].minutes >= 0.0
    ensures 0.0 <= MinutesInWeek(ss, w) <= Sum(MinutesOf(ss))
    decreases |ss|
  {
    if |ss| > 0 {
      MinutesInWeekBounds(ss[1..], w);
      assert MinutesOf(ss)[1..] == MinutesOf(ss[1..]);
    }
  }

  /** With no negative minutes logged, the base lies between zero and the
      total number of minutes logged. */
  lemma BaseBounds(ss: seq<Session>)
    requires |ss| > 0
    requires forall k :: 0 <= k < |ss| ==> ss[k].minutes >= 0.0
    ensures 0 <= Base(ss) <= RoundHalfEven(Sum(MinutesOf(ss)))
  {
    var weekly := WeeklyTotals(ss, RecentWeeks(ss));
    var total := Sum(MinutesOf(ss));
    forall k | 0 <= k < |weekly| ensures 0.0 <= weekly[k] <= total {
      MinutesInWeekBounds(ss, RecentWeeks(ss)[k]);
    }
    MeanBounds(weekly, 0.0, total);
    RoundHalfEvenMonotone(0.0, Mean(weekly));
    RoundHalfEvenMonotone(Mean(weekly), total);
    RoundHalfEvenUnique(0.0, 0);
  }

  // ---- recent success ----

  /** Completed over target minutes for every goal with a positive target, in order. */
  function SuccessRates(gs: seq<GoalRow>): (r: seq<real>)
    ensures |r| <= |gs|
    ensures |r| == 0 <==> forall k :: 0 <= k < |gs| ==> gs[k].targetMinutes <= 0.0
  {
    if |gs| == 0 then []
    else
      var rest := SuccessRates(gs[1..]);
      assert forall k :: 1 <= k < |gs| ==> gs[k] == gs[1..][k - 1];
      if gs[0].targetMinutes > 0.0 then [gs[0].completedMinutes / gs[0].targetMinutes] + rest else rest
  }

  lemma {:induction false} SuccessRatesAppend(a: seq<GoalRow>, b: seq<GoalRow>)
    ensures SuccessRates(a + b) == SuccessRates(a) + SuccessRates(b)
    decreases |a|
  {
    if |a| == 0 {
      assert a + b == b;
    } else {
      assert (a + b)[0] == a[0] && (a + b)[1..] == a[1..] + b;
      SuccessRatesAppend(a[1..], b);
    }
  }

  /** The last `n` elements (`tail(n)`). */
  function Last<T>(s: seq<T>, n: nat): (r: seq<T>)
    ensures |r| == if |s| < n then |s| else n
    ensures forall k :: 0 <= k < |r| ==> r[k] == s[|s| - |r| + k]
  {
    if |s| <= n then s else s[|s| - n..]
  }

  /** Mean of the last three defined success rates; `None` when no goals
      were given, the goal table is empty, or no goal has a positive target. */
  function Success(goals: Option<seq<GoalRow>>): (r: Option<real>)
    ensures r.None? <==> goals.None? || forall k :: 0 <= k < |goals.value| ==> goals.value[k].targetMinutes <= 0.0
    ensures r.Some? ==> r.value == Mean(Last(SuccessRates(goals.value), RecentGoalCount))
  {
    if goals.None? || |goals.value| == 0 then None
    else
      var rates := SuccessRates(goals.value);
      if |rates| == 0 then None else Some(Mean(Last(rates, RecentGoalCount)))
  }

  /** Older goals stop mattering once three later goals have a positive target. */
  lemma OnlyRecentGoalsCount(older: seq<GoalRow>, recent: seq<GoalRow>)
    requires |SuccessRates(recent)| >= RecentGoalCount
    ensures Success(Some(older + recent)) == Success(Some(recent))
  {
    SuccessRatesAppend(older, recent);
    var a := SuccessRates(older);
    var b := SuccessRates(recent);
    assert Last(a + b, RecentGoalCount) == Last(b, RecentGoalCount);
    assert |recent| > 0 && |older + recent| > 0;
  }

  // ---- the adjustment ----

  function Bounded(m: int): (r: int)
    ensures MinWeekly <= r <= MaxWeekly
  {
    Clamp(m, MinWeekly, MaxWeekly)
  }

  /** The mission for a base and an optional recent success rate. */
  function Adjust(base: int, success: Option<real>): (m: WeeklyMission)
    ensures MinWeekly <= m.weeklyMinutes <= MaxWeekly
    ensures success.None? <==> m.rationale == NoGoalInfo
    ensures success.Some? ==> (success.value < LowSuccess <==> m.rationale == LowSuccessRate(success.value))
    ensures success.Some? ==> (success.value > HighSuccess <==> m.rationale == HighSuccessRate(success.value))
    ensures success.Some? ==> (LowSuccess <= success.value <= HighSuccess <==> m.rationale == AverageSuccessRate(success.value))
    ensures success.None? ==> m.weeklyMinutes == Bounded(RoundHalfEven(base as real * 1.1))
    ensures success.Some? && success.value < LowSuccess && RoundHalfEven(base as real * 0.9) > MinWeekly ==>
      m.weeklyMinutes == Bounded(RoundHalfEven(base as real * 0.9))
    ensures success.Some? && success.value < LowSuccess && RoundHalfEven(base as real * 0.9) <= MinWeekly ==>
      m.weeklyMinutes == MinWeekly
    ensures success.Some? && success.value > HighSuccess ==> m.weeklyMinutes == Bounded(RoundHalfEven(base as real * 1.2))
    ensures success.Some? && LowSuccess <= success.value <= HighSuccess ==>
      m.weeklyMinutes == Bounded(RoundHalfEven(base as real * 1.1))
  {
    var grown := RoundHalfEven(base as real * 1.1);
    match success
    case None => WeeklyMission(Bounded(grown), NoGoalInfo)
    case Some(s) =>
      if s < LowSuccess then
        var reduced := RoundHalfEven(base as real * 0.9);
        WeeklyMission(Bounded(if reduced > MinWeekly then reduced else MinWeekly), LowSuccessRate(s))
      else if s > HighSuccess then WeeklyMission(Bounded(RoundHalfEven(base as real * 1.2)), HighSuccessRate(s))
      else WeeklyMission(Bounded(grown), AverageSuccessRate(s))
  }

  lemma BoundedMonotone(a: int, b: int)
    requires a <= b
    ensures Bounded(a) <= Bounded(b)
  {
  }

  /** For a non-negative base, a better success rate never yields fewer minutes. */
  lemma AdjustMonotone(base: int, s: real, t: real)
    requires base >= 0 && s <= t
    ensures Adjust(base, Some(s)).weeklyMinutes <= Adjust(base, Some(t)).weeklyMinutes
  {
    TiersOrdered(base);
    AdjustSome(base, s);
    AdjustSome(base, t);
    TieredMonotone(s, t, Reduced(base), Bounded(RoundHalfEven(base as real * 1.1)), Bounded(RoundHalfEven(base as real * 1.2)));
  }

  /** The reduced mission: nine tenths of the base, at least the minimum. */
  function Reduced(base: int): int
  {
    var reduced := RoundHalfEven(base as real * 0.9);
    Bounded(if reduced > MinWeekly then reduced else MinWeekly)
  }

  /** One of three values, chosen by the band the success rate falls in. */
  function Tiered(s: real, low: int, average: int, high: int): int
  {
    if s < LowSuccess then low else if s > HighSuccess then high else average
  }

  lemma TieredMonotone(s: real, t: real, low: int, average: int, high: int)
    requires s <= t && low <= average <= high
    ensures Tiered(s, low, average, high) <= Tiered(t, low, average, high)
  {
  }

  lemma TiersOrdered(base: int)
    requires base >= 0
    ensures Reduced(base) <= Bounded(RoundHalfEven(base as real * 1.1)) <= Bounded(RoundHalfEven(base as real * 1.2))
  {
    var b := base as real;
    var lo := RoundHalfEven(b * 0.9);
    var mid := RoundHalfEven(b * 1.1);
    ScaledOrdered(b);
    RoundHalfEvenMonotone(b * 0.9, b * 1.1);
    RoundHalfEvenMonotone(b * 1.1, b * 1.2);
    BoundedMonotone(if lo > MinWeekly then lo else MinWeekly, if mid > MinWeekly then mid else MinWeekly);
    BoundedMonotone(mid, RoundHalfEven(b * 1.2));
  }

  lemma ScaledOrdered(b: real)
    requires b >= 0.0
    ensures b * 0.9 <= b * 1.1 <= b * 1.2
  {
  }

  lemma AdjustSome(base: int, s: real)
    ensures Adjust(base, Some(s)).weeklyMinutes ==
      Tiered(s, Reduced(base), Bounded(RoundHalfEven(base as real * 1.1)), Bounded(RoundHalfEven(base as real * 1.2)))
  {
  }

  /** An average success rate asks for what no goal information does. */
  lemma AverageIsNeutral(base: int, s: real)
    requires LowSuccess <= s <= HighSuccess
    ensures Adjust(base, Some(s)).weeklyMinutes == Adjust(base, None).weeklyMinutes
  {
  }

  /** `recommend_weekly_mission`: the cold-start default for an empty log,
      otherwise the adjusted base. */
  function Recommend(ss: seq<Session>, goals: Option<seq<GoalRow>>): (m: WeeklyMission)
    ensures MinWeekly <= m.weeklyMinutes <= MaxWeekly
    ensures m.rationale == ColdStartDefault <==> |ss| == 0
    ensures |ss| == 0 ==> m.weeklyMinutes == ColdStartMinutes
    ensures |ss| > 0 ==> m == Adjust(Base(ss), Success(goals))
  {
    if |ss| == 0 then WeeklyMission(ColdStartMinutes, ColdStartDefault)
    else Adjust(Base(ss), Success(goals))
  }

  function Goal(target: real, completed: real): GoalRow
  {
    GoalRow(1, target, completed, 0.0, 0.0, 0.0, 0.0)
  }

  /** A base of 100 minutes and three goals met at half their target give a
      reduced mission of 90 minutes explained as a low success rate of 0.50. */
  lemma HalfMetScenario()
    ensures Adjust(100, Success(Some([Goal(100.0, 50.0), Goal(100.0, 50.0), Goal(100.0, 50.0)]))).weeklyMinutes == 90
    ensures RationaleText(Adjust(100, Success(Some([Goal(100.0, 50.0), Goal(100.0, 50.0), Goal(100.0, 50.0)]))).rationale)
      == "low_success_rate(0.50)_reduce"
  {
    HalfMetSuccess();
    RoundHalfEvenUnique(90.0, 90);
    assert Adjust(100, Some(0.5)).rationale == LowSuccessRate(0.5);
    HalfMetText();
  }

  lemma HalfMetSuccess()
    ensures Success(Some([Goal(100.0, 50.0), Goal(100.0, 50.0), Goal(100.0, 50.0)])) == Some(0.5)
  {
    var gs := [Goal(100.0, 50.0), Goal(100.0, 50.0), Goal(100.0, 50.0)];
    assert SuccessRates(gs) == [0.5, 0.5, 0.5];
    assert Last([0.5, 0.5, 0.5], RecentGoalCount) == [0.5, 0.5, 0.5];
    assert Sum([0.5, 0.5, 0.5]) == 1.5;
  }

  lemma HalfMetText()
    ensures RationaleText(LowSuccessRate(0.5)) == "low_success_rate(0.50)_reduce"
  {
    HalfRendered();
    assert RationaleText(LowSuccessRate(0.5)) == "low_success_rate(" + "0.50" + ")_reduce";
  }

  lemma HalfRendered()
    ensures Fixed2(0.5) == "0.50"
  {
    RoundHalfEvenUnique(50.0, 50);
    assert Fixed2(0.5) == Render(50, false) == Hundredths(50);
    DigitRoundTrip(0);
    DigitRoundTrip(5);
    assert DigitChar(5) == '5' && DigitChar(0) == '0';
    assert Digits(0) == "0";
    assert Hundredths(50) == Digits(0) + "." + [DigitChar(5), DigitChar(0)];
  }
}
