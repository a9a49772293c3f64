/** Inactivity detection: per user, the latest session, the whole days
    elapsed since it at a reference instant, and whether that reaches the
    inactivity threshold. */
module Inactivity {
  import opened Sorting
  import opened Sessions

  const DefaultThresholdDays: int := 5

  /** One row of the inactivity table. `lastRead` is in seconds, as in `Stamp`. */
  datatype InactivityRow = InactivityRow(userId: int, lastRead: int, daysSince: int, inactive: bool)

  predicate HasUser(ss: seq<Session>, u: int)
  {
    exists k :: 0 <= k < |ss| && ss[k].userId == u
  }

  /** The latest session time of user `u` (`groupby('user_id')['read_at'].max()`). */
  function LastRead(ss: seq<Session>, u: int): (t: int)
    requires HasUser(ss, u)
    ensures exists k :: 0 <= k < |ss| && ss[k].userId == u && ss[k].at.seconds == t
    ensures forall k :: 0 <= k < |ss| && ss[k].userId == u ==> ss[k].at.seconds <= t
  {
    if ss[0].userId == u && !HasUser(ss[1..], u) then
      assert forall k :: 1 <= k < |ss| ==> ss[k] == ss[1..][k - 1];
      ss[0].at.seconds
    else
      assert ss[0].userId != u ==> (var k :| 0 <= k < |ss| && ss[k].userId == u; ss[1..][k - 1].userId == u);
      var t := LastRead(ss[1..], u);
      assert forall k :: 1 <= k < |ss| ==> ss[k] == ss[1..][k - 1];
      if ss[0].userId == u && ss[0].at.seconds > t then ss[0].at.seconds else t
  }

  /** Whole days elapsed, floored as a timedelta's day count is. */
  function DaysSince(asOf: int, last: int): (d: int)
    ensures d * SecondsPerDay <= asOf - last < (d + 1) * SecondsPerDay
  {
    (asOf - last) / SecondsPerDay
  }

  function RowFor(ss: seq<Session>, u: int, thresholdDays: int, asOf: int): (r: InactivityRow)
    requires HasUser(ss, u)
    ensures r.userId == u && r.lastRead == LastRead(ss, u)
    ensures r.daysSince == DaysSince(asOf, r.lastRead)
    ensures r.inactive <==> r.daysSince >= thresholdDays
  {
    var last := LastRead(ss, u);
    var d := DaysSince(asOf, last);
    InactivityRow(u, last, d, d >= thresholdDays)
  }

  function RowsFor(ss: seq<Session>, us: seq<int>, thresholdDays: int, asOf: int): (r: seq<InactivityRow>)
    requires forall u :: u in us ==> HasUser(ss, u)
    ensures |r| == |us|
    ensures forall k :: 0 <= k < |us| ==> r[k] == RowFor(ss, us[k], thresholdDays, asOf)
  {
    if |us| == 0 then [] else [RowFor(ss, us[0], thresholdDays, asOf)] + RowsFor(ss, us[1..], thresholdDays, asOf)
  }

  lemma UserIdsHaveUser(ss: seq<Session>)
    ensures forall u :: u in UserIds(ss) ==> HasUser(ss, u)
  {
    forall u | u in UserIds(ss) ensures HasUser(ss, u) {
      var k :| 0 <= k < |UserIds(ss)| && UserIds(ss)[k] == u;
      assert ss[k].userId == u;
    }
  }

  /** The users of the log, ascending, as a `groupby` index lists them. */
  function Users(ss: seq<Session>): (r: seq<int>)
    ensures Increasing(r)
    ensures forall u :: u in r <==> u in UserIds(ss)
  {
    Distinct(UserIds(ss))
  }

  /** `detect_inactivity`, with the reference instant passed in. */
  function DetectInactivity(ss: seq<Session>, thresholdDays: int, asOf: int): (r: seq<InactivityRow>)
    ensures |r| == |Users(ss)|
    ensures forall k :: 0 <= k < |r| ==> r[k].userId == Users(ss)[k] && HasUser(ss, r[k].userId)
    ensures forall k :: 0 <= k < |r| ==> r[k].lastRead == LastRead(ss, r[k].userId)
    ensures forall k :: 0 <= k < |r| ==> r[k].daysSince == DaysSince(asOf, r[k].lastRead)
    ensures forall k :: 0 <= k < |r| ==> (r[k].inactive <==> r[k].daysSince >= thresholdDays)
  {
    UserIdsHaveUser(ss);
    RowsFor(ss, Users(ss), thresholdDays, asOf)
  }

  /** Exactly one row per user: the table's users are the log's users,
      each once, in ascending order. */
  lemma OneRowPerUser(ss: seq<Session>, thresholdDays: int, asOf: int, u: int)
    ensures HasUser(ss, u) <==> exists k :: 0 <= k < |DetectInactivity(ss, thresholdDays, asOf)| && DetectInactivity(ss, thresholdDays, asOf)[k].userId == u
    ensures forall i, j :: 0 <= i < j < |DetectInactivity(ss, thresholdDays, asOf)| ==>
      DetectInactivity(ss, thresholdDays, asOf)[i].userId < DetectInactivity(ss, thresholdDays, asOf)[j].userId
  {
    var r := DetectInactivity(ss, thresholdDays, asOf);
    var us := Users(ss);
    if HasUser(ss, u) {
      var k :| 0 <= k < |ss| && ss[k].userId == u;
      assert UserIds(ss)[k] == u;
      assert u in us;
      var i :| 0 <= i < |us| && us[i] == u;
      assert r[i].userId == u;
    }
    if exists k :: 0 <= k < |r| && r[k].userId == u {
      var k :| 0 <= k < |r| && r[k].userId == u;
      assert HasUser(ss, r[k].userId);
    }
  }

  /** The inactive flag compares elapsed time with the threshold: a user is
      inactive exactly when at least `thresholdDays` whole days have passed. */
  lemma InactiveIffElapsed(ss: seq<Session>, u: int, thresholdDays: int, asOf: int)
    requires HasUser(ss, u)
    ensures RowFor(ss, u, thresholdDays, asOf).inactive <==> asOf - LastRead(ss, u) >= thresholdDays * SecondsPerDay
  {
    var d := DaysSince(asOf, LastRead(ss, u));
    if d >= thresholdDays {
      assert d * SecondsPerDay >= thresholdDays * SecondsPerDay;
    } else {
      assert (d + 1) * SecondsPerDay <= thresholdDays * SecondsPerDay;
    }
  }

  /** A later session can only make the user less inactive. */
  lemma LaterSessionResets(ss: seq<Session>, s: Session, thresholdDays: int, asOf: int)
    requires HasUser(ss, s.userId)
    requires s.at.seconds >= LastRead(ss, s.userId)
    ensures HasUser(ss + [s], s.userId)
    ensures LastRead(ss + [s], s.userId) == s.at.seconds
    ensures RowFor(ss + [s], s.userId, thresholdDays, asOf).daysSince == DaysSince(asOf, s.at.seconds)
  {
    var xs := ss + [s];
    assert xs[|ss|] == s;
    var t := LastRead(xs, s.userId);
    var k :| 0 <= k < |xs| && xs[k].userId == s.userId && xs[k].at.seconds == t;
    if k < |ss| {
      assert xs[k] == ss[k];
    }
  }

  /** A user whose latest session was ten days before the reference instant
      is ten days inactive, which reaches the default threshold. */
  lemma TenDaysScenario(s: Session, asOf: int)
    requires asOf == s.at.seconds + 10 * SecondsPerDay
    ensures DetectInactivity([s], DefaultThresholdDays, asOf) == [InactivityRow(s.userId, s.at.seconds, 10, true)]
  {
    assert UserIds([s]) == [s.userId];
    var us := Users([s]);
    assert s.userId in us;
    assert forall u :: u in us ==> u == s.userId;
    assert |us| == 1 by {
      assert us[0] in us && us[|us| - 1] in us;
      Sorting.IncreasingSpan(us);
    }
    assert us == [s.userId];
    assert LastRead([s], s.userId) == s.at.seconds;
  }
}
