/** The rule-based reading-time recommendation for one user: the most
    frequent part of the day and hour, a session length derived from the
    typical session, and a days-per-week figure from the latest weeks. */
module Timing {
  import opened Numerics
  import opened Sessions
  import opened Sorting

  /** Parts of the day, declared in the alphabetical order of their labels,
      which is the order a tie between equally frequent parts is broken in. */
  datatype Period = Afternoon | Evening | LateAfternoon | Morning | Night

  function Label(p: Period): string
  {
    match p
    case Afternoon => "afternoon"
    case Evening => "evening"
    case LateAfternoon => "late_afternoon"
    case Morning => "morning"
    case Night => "night"
  }

  function Rank(p: Period): (r: int)
    ensures 0 <= r < 5
  {
    match p
    case Afternoon => 0
    case Evening => 1
    case LateAfternoon => 2
    case Morning => 3
    case Night => 4
  }

  function PeriodOfRank(r: int): (p: Period)
    requires 0 <= r < 5
    ensures Rank(p) == r
  {
    if r == 0 then Afternoon
    else if r == 1 then Evening
    else if r == 2 then LateAfternoon
    else if r == 3 then Morning
    else Night
  }

  lemma RankInjective(p: Period, q: Period)
    ensures Rank(p) == Rank(q) ==> p == q
  {
  }

  /** Strict lexicographic order on strings, as Python compares them. */
  predicate LexLess(a: string, b: string)
  {
    if |a| == 0 then |b| > 0
    else if |b| == 0 then false
    else if a[0] != b[0] then a[0] < b[0]
    else LexLess(a[1..], b[1..])
  }

  /** Ranking periods is ranking their labels. */
  lemma RankIsLabelOrder(p: Period, q: Period)
    ensures Rank(p) < Rank(q) <==> LexLess(Label(p), Label(q))
  {
    assert Label(LateAfternoon)[0] == 'l';
    assert Label(Afternoon)[0] == 'a' && Label(Evening)[0] == 'e';
    assert Label(Morning)[0] == 'm' && Label(Night)[0] == 'n';
    assert !LexLess(Label(p), Label(p)) by {
      LexLessIrreflexive(Label(p));
    }
  }

  lemma {:induction false} LexLessIrreflexive(a: string)
    ensures !LexLess(a, a)
    decreases |a|
  {
    if |a| > 0 {
      LexLessIrreflexive(a[1..]);
    }
  }

  /** `period_of_hour`. */
  function PeriodOfHour(h: int): Period
  {
    if 5 <= h < 11 then Morning
    else if 11 <= h < 15 then Afternoon
    else if 15 <= h < 19 then LateAfternoon
    else if 19 <= h < 23 then Evening
    else Night
  }

  /** Each part of the day as a window of the 24-hour clock: its first hour
      and its length. Night wraps past midnight. */
  function WindowStart(p: Period): int
  {
    match p
    case Morning => 5
    case Afternoon => 11
    case LateAfternoon => 15
    case Evening => 19
    case Night => 23
  }

  function WindowLength(p: Period): (n: int)
    ensures n > 0
  {
    match p
    case Morning => 6
    case Afternoon => 4
    case LateAfternoon => 4
    case Evening => 4
    case Night => 6
  }

  predicate InWindow(p: Period, h: int)
  {
    (h - WindowStart(p)) % 24 < WindowLength(p)
  }

  /** The windows tile the day: an hour of the day falls in exactly the
      window of the period it is assigned. */
  lemma PeriodOfHourIsWindow(h: int, p: Period)
    requires 0 <= h < 24
    ensures PeriodOfHour(h) == p <==> InWindow(p, h)
  {
  }

  /** The fixed answer for users with too little history. */
  datatype Reason = ColdStart | RuleBased

  datatype TimeRec = TimeRec(reason: Reason, hour: int, period: Period, sessionMinutes: int, daysPerWeek: int)

  const DefaultMinSessions: nat := 3
  const ColdStartRec: TimeRec := TimeRec(ColdStart, 20, Evening, 20, 3)

  function PeriodsOf(ss: seq<Session>): (r: seq<Period>)
    ensures |r| == |ss|
    ensures forall k :: 0 <= k < |ss| ==> r[k] == PeriodOfHour(ss[k].hour)
  {
    if |ss| == 0 then [] else [PeriodOfHour(ss[0].hour)] + PeriodsOf(ss[1..])
  }

  function Ranks(ps: seq<Period>): (r: seq<int>)
    ensures |r| == |ps|
    ensures forall k :: 0 <= k < |ps| ==> r[k] == Rank(ps[k])
  {
    if |ps| == 0 then [] else [Rank(ps[0])] + Ranks(ps[1..])
  }

  lemma {:induction false} RanksCount(ps: seq<Period>, q: Period)
    ensures multiset(Ranks(ps))[Rank(q)] == multiset(ps)[q]
    decreases |ps|
  {
    if |ps| > 0 {
      RanksCount(ps[1..], q);
      var rest := Ranks(ps[1..]);
      assert ps == [ps[0]] + ps[1..];
      assert Ranks(ps) == [Rank(ps[0])] + rest;
      assert multiset(Ranks(ps))[Rank(q)] == multiset(rest)[Rank(q)] + (if Rank(ps[0]) == Rank(q) then 1 else 0);
      assert multiset(ps)[q] == multiset(ps[1..])[q] + (if ps[0] == q then 1 else 0);
      RankInjective(ps[0], q);
    }
  }

  /** The most frequent part of the day; ties go to the alphabetically first label. */
  function TopPeriod(ss: seq<Session>): (p: Period)
    requires |ss| > 0
    ensures p in PeriodsOf(ss)
    ensures forall q :: multiset(PeriodsOf(ss))[q] <= multiset(PeriodsOf(ss))[p]
    ensures forall q :: multiset(PeriodsOf(ss))[q] == multiset(PeriodsOf(ss))[p] ==> Rank(p) <= Rank(q)
  {
    var ps := PeriodsOf(ss);
    var r := Mode(Ranks(ps));
    var i :| 0 <= i < |ps| && Ranks(ps)[i] == r;
    var p := PeriodOfRank(r);
    RankInjective(p, ps[i]);
    assert p == ps[i];
    assert forall q :: multiset(ps)[q] <= multiset(ps)[p] && (multiset(ps)[q] == multiset(ps)[p] ==> Rank(p) <= Rank(q)) by {
      forall q ensures multiset(ps)[q] <= multiset(ps)[p] && (multiset(ps)[q] == multiset(ps)[p] ==> Rank(p) <= Rank(q)) {
        TopPeriodBeats(ps, p, q);
      }
    }
    p
  }

  /** The mode of the ranks names a period at least as frequent as any
      other, and alphabetically first among the equally frequent. */
  lemma TopPeriodBeats(ps: seq<Period>, p: Period, q: Period)
    requires |ps| > 0 && Rank(p) == Mode(Ranks(ps))
    ensures multiset(ps)[q] <= multiset(ps)[p]
    ensures multiset(ps)[q] == multiset(ps)[p] ==> Rank(p) <= Rank(q)
  {
    RanksCount(ps, p);
    RanksCount(ps, q);
    ModeBeats(Ranks(ps), Rank(p), Rank(q));
  }

  /** The mode is at least as frequent as any value, and no larger than
      any value equally frequent. */
  lemma ModeBeats(rs: seq<int>, m: int, x: int)
    requires |rs| > 0 && m == Mode(rs)
    ensures multiset(rs)[x] <= multiset(rs)[m]
    ensures multiset(rs)[x] == multiset(rs)[m] ==> m <= x
  {
    assert m in multiset(rs);
    if x !in rs {
      assert x !in multiset(rs);
    }
  }

  /** The most frequent hour; ties go to the earliest hour. */
  function TopHour(ss: seq<Session>): (h: int)
    requires |ss| > 0
    ensures h in Hours(ss)
    ensures forall x :: x in Hours(ss) ==> multiset(Hours(ss))[x] <= multiset(Hours(ss))[h]
    ensures forall x :: x in Hours(ss) && multiset(Hours(ss))[x] == multiset(Hours(ss))[h] ==> h <= x
  {
    Mode(Hours(ss))
  }

  /** The typical session length: the median, or the mean when the median
      is zero, or 20 minutes when both are zero. */
  function AverageMinutes(ss: seq<Session>): (a: real)
    requires |ss| > 0
    ensures a != 0.0
    ensures Median(MinutesOf(ss)) != 0.0 ==> a == Median(MinutesOf(ss))
    ensures Median(MinutesOf(ss)) == 0.0 && Mean(MinutesOf(ss)) != 0.0 ==> a == Mean(MinutesOf(ss))
    ensures Median(MinutesOf(ss)) == 0.0 && Mean(MinutesOf(ss)) == 0.0 ==> a == 20.0
  {
    var m := Median(MinutesOf(ss));
    if m != 0.0 then m
    else
      var avg := Mean(MinutesOf(ss));
      if avg != 0.0 then avg else 20.0
  }

  /** When no session logged negative minutes, the typical length is
      positive, and it is the 20-minute default when nothing was logged. */
  lemma AverageMinutesPositive(ss: seq<Session>)
    requires |ss| > 0
    requires forall k :: 0 <= k < |ss| ==> ss[k].minutes >= 0.0
    ensures AverageMinutes(ss) > 0.0
    ensures (forall k :: 0 <= k < |ss| ==> ss[k].minutes == 0.0) ==> AverageMinutes(ss) == 20.0
  {
    var ms := MinutesOf(ss);
    var hi := MaxOf(ms);
    MedianBounds(ms, 0.0, hi);
    MeanBounds(ms, 0.0, hi);
    if forall k :: 0 <= k < |ss| ==> ss[k].minutes == 0.0 {
      MedianBounds(ms, 0.0, 0.0);
      MeanBounds(ms, 0.0, 0.0);
    }
  }

  function MaxOf(s: seq<real>): (m: real)
    requires |s| > 0
    ensures forall i :: 0 <= i < |s| ==> s[i] <= m
  {
    if |s| == 1 then s[0]
    else
      var t := MaxOf(s[1..]);
      assert forall i :: 1 <= i < |s| ==> s[i] == s[1..][i - 1];
      if s[0] > t then s[0] else t
  }

  /** Suggested session length: a tenth more than the typical session,
      rounded half to even, and never below five minutes. */
  function SessionMinutes(avg: real): (m: int)
    ensures m >= 5
    ensures m == 5 || m == RoundHalfEven(avg * 1.1)
    ensures RoundHalfEven(avg * 1.1) >= 5 ==> m == RoundHalfEven(avg * 1.1)
  {
    var r := RoundHalfEven(avg * 1.1);
    if r > 5 then r else 5
  }

  /** A longer typical session never gives a shorter suggestion. */
  lemma SessionMinutesMonotone(a: real, b: real)
    requires a <= b
    ensures SessionMinutes(a) <= SessionMinutes(b)
  {
    RoundHalfEvenMonotone(a * 1.1, b * 1.1);
  }

  /** Session counts of the given weeks. */
  function WeekCounts(ss: seq<Session>, ws: seq<int>): (r: seq<real>)
    ensures |r| == |ws|
    ensures forall k :: 0 <= k < |ws| ==> r[k] == CountInWeek(ss, ws[k]) as real
  {
    if |ws| == 0 then [] else [CountInWeek(ss, ws[0]) as real] + WeekCounts(ss, ws[1..])
  }

  /** Reading days per week: the mean session count of the (up to) four
      latest weeks, rounded half to even and kept within one to seven. */
  function DaysPerWeek(ss: seq<Session>): (d: int)
    ensures 1 <= d <= 7
    ensures |ss| == 0 ==> d == 3
    ensures |ss| > 0 ==> d == Clamp(RoundHalfEven(Mean(WeekCounts(ss, RecentWeeks(ss)))), 1, 7)
  {
    var counts := WeekCounts(ss, RecentWeeks(ss));
    if |counts| > 0 then Clamp(RoundHalfEven(Mean(counts)), 1, 7) else 3
  }

  /** Never more reading days are suggested than there were sessions. */
  lemma DaysPerWeekAtMostSessions(ss: seq<Session>)
    requires |ss| > 0
    ensures DaysPerWeek(ss) <= |ss|
  {
    var ws := RecentWeeks(ss);
    var counts := WeekCounts(ss, ws);
    forall k | 0 <= k < |counts| ensures 1.0 <= counts[k] <= |ss| as real {
      CountInWeekBound(ss, ws[k]);
      CountInPresentWeek(ss, ws[k]);
    }
    MeanBounds(counts, 1.0, |ss| as real);
    RoundHalfEvenMonotone(Mean(counts), |ss| as real);
    RoundHalfEvenUnique(|ss| as real, |ss|);
  }

  /** When all sessions fall in one week, the suggestion is that week's
      session count, capped at seven. */
  lemma DaysPerWeekSingleWeek(ss: seq<Session>, w: int)
    requires |ss| > 0
    requires forall k :: 0 <= k < |ss| ==> ss[k].at.isoWeek == w
    ensures DaysPerWeek(ss) == if |ss| > 7 then 7 else |ss|
  {
    var ws := RecentWeeks(ss);
    assert Weeks(ss)[0] == w;
    forall v | v in ws ensures v == w {
      var k :| 0 <= k < |Weeks(ss)| && Weeks(ss)[k] == v;
    }
    assert ws[0] in ws && ws[|ws| - 1] in ws;
    DecreasingSpan(ws);
    assert |ws| == 1;
    assert ws == [w];
    AllInWeek(ss, w);
    var counts := WeekCounts(ss, ws);
    assert counts == [|ss| as real];
    assert Sum(counts) == |ss| as real + Sum([]);
    assert Mean(counts) == |ss| as real;
    RoundHalfEvenUnique(|ss| as real, |ss|);
  }

  lemma {:induction false} AllInWeek(ss: seq<Session>, w: int)
    requires forall k :: 0 <= k < |ss| ==> ss[k].at.isoWeek == w
    ensures CountInWeek(ss, w) == |ss|
    decreases |ss|
  {
    if |ss| > 0 {
      AllInWeek(ss[1..], w);
    }
  }

  /** `rule_based_time_recommendation`. A history of zero sessions is only
      answered when it counts as a cold start. */
  function RuleBasedTime(ss: seq<Session>, minSessions: nat): (t: TimeRec)
    requires |ss| > 0 || minSessions > 0
    ensures t.reason == ColdStart <==> |ss| < minSessions
    ensures |ss| < minSessions ==> t == ColdStartRec
    ensures 1 <= t.daysPerWeek <= 7
    ensures t.sessionMinutes >= 5
    ensures |ss| >= minSessions ==>
      && t.period == TopPeriod(ss)
      && t.hour == TopHour(ss)
      && t.sessionMinutes == SessionMinutes(AverageMinutes(ss))
      && t.daysPerWeek == DaysPerWeek(ss)
  {
    if |ss| < minSessions then ColdStartRec
    else TimeRec(RuleBased, TopHour(ss), TopPeriod(ss), SessionMinutes(AverageMinutes(ss)), DaysPerWeek(ss))
  }

  function SessionAt(hour: int, minutes: real): Session
    requires 0 <= hour < 24
  {
    Session(1, Stamp(hour * SecondsPerHour, 1), hour, 3, false, minutes, 0.0, 0.0)
  }

  /** Four sessions at 20h, 20h, 21h and 19h favour the evening and 20h. */
  lemma EveningScenario()
    ensures RuleBasedTime(FourEvenings(), DefaultMinSessions).period == Evening
    ensures RuleBasedTime(FourEvenings(), DefaultMinSessions).hour == 20
  {
    FourEveningsPeriod();
    FourEveningsHour();
  }

  lemma FourEveningsPeriod()
    ensures TopPeriod(FourEvenings()) == Evening
  {
    var ss := FourEvenings();
    assert PeriodsOf(ss) == [Evening, Evening, Evening, Evening];
  }

  lemma FourEveningsHour()
    ensures TopHour(FourEvenings()) == 20
  {
    assert Hours(FourEvenings()) == [20, 20, 21, 19];
    MostFrequentHour(FourEvenings());
  }

  lemma MostFrequentHour(ss: seq<Session>)
    requires Hours(ss) == [20, 20, 21, 19]
    ensures TopHour(ss) == 20
  {
    var hs := Hours(ss);
    var h := TopHour(ss);
    assert multiset(hs) == multiset{20, 20, 21, 19};
    assert hs[0] == 20;
    assert multiset(hs)[20] <= multiset(hs)[h];
    assert h == 20 || h == 21 || h == 19;
  }

  function FourEvenings(): seq<Session>
  {
    [SessionAt(20, 30.0), SessionAt(20, 30.0), SessionAt(21, 30.0), SessionAt(19, 30.0)]
  }

  /** A single session is a cold start and yields the fixed default. */
  lemma SingleSessionIsColdStart(s: Session)
    ensures RuleBasedTime([s], DefaultMinSessions) == TimeRec(ColdStart, 20, Evening, 20, 3)
  {
  }
}
