/** Reading-log preprocessing: choosing the timestamp column, dropping rows
    whose timestamp is missing or unparseable, deriving the hour, weekday and
    weekend flag, coercing the minutes and pages cells to numbers (empty or
    non-numeric cells become 0) and computing pages per minute. Also the per-week aggregates the goal rules share. */
module Sessions {
  import opened Wrappers
  import opened Sorting

  const SecondsPerDay: int := 86400
  const SecondsPerHour: int := 3600

  /** A parsed timestamp: whole seconds on the naive local clock counted
      from 1970-01-01 00:00, together with the ISO week number of that
      day (week numbering is calendar arithmetic this model takes as given). */
  datatype Stamp = Stamp(seconds: int, isoWeek: int)

  /** One raw log row. A timestamp cell is `None` when it is empty or does
      not parse; a numeric cell is `None` when it is empty or not a number. */
  datatype RawLog = RawLog(
    userId: int,
    readAt: Option<Stamp>,
    createdAt: Option<Stamp>,
    minutes: Option<real>,
    pages: Option<real>)

  /** The log table: which optional columns it has, and its rows. The
      `log_id` column is read only by the monthly report. */
  datatype LogFrame = LogFrame(
    hasReadAt: bool,
    hasCreatedAt: bool,
    hasMinutes: bool,
    hasPages: bool,
    hasLogId: bool,
    rows: seq<RawLog>)

  /** A preprocessed reading session. Weekdays count from Monday = 0. */
  datatype Session = Session(
    userId: int,
    at: Stamp,
    hour: int,
    weekday: int,
    weekend: bool,
    minutes: real,
    pages: real,
    ppm: real)

  /** Why preprocessing raises. Without a `minutes_read` (or `pages_read`)
      column, `df.get` yields the scalar 0, `pd.to_numeric` returns it
      unchanged, and calling `fillna` on that scalar raises. */
  datatype PreprocessError = MissingTimestampColumn | MissingMinutesColumn | MissingPagesColumn

  /** Start of the day containing `seconds` (days are floored, also before 1970). */
  function DayStart(seconds: int): int
  {
    seconds / SecondsPerDay * SecondsPerDay
  }

  /** Hour of the day: the one-hour slot of the day that contains the instant. */
  function HourOf(seconds: int): (h: int)
    ensures 0 <= h < 24
    ensures DayStart(seconds) + h * SecondsPerHour <= seconds < DayStart(seconds) + (h + 1) * SecondsPerHour
  {
    seconds % SecondsPerDay / SecondsPerHour
  }

  /** Day of the week, Monday = 0; 1970-01-01 was a Thursday. */
  function WeekdayOf(seconds: int): (d: int)
    ensures 0 <= d < 7
  {
    (seconds / SecondsPerDay + 3) % 7
  }

  /** One day later is one weekday later, wrapping from Sunday to Monday. */
  lemma WeekdayAdvances(seconds: int)
    ensures WeekdayOf(seconds + SecondsPerDay) == (WeekdayOf(seconds) + 1) % 7
  {
    assert (seconds + SecondsPerDay) / SecondsPerDay == seconds / SecondsPerDay + 1;
  }

  function DayName(d: int): string
    requires 0 <= d < 7
  {
    ["Monday", "Tuesday", "Wednesday", "Thursday", "Friday", "Saturday", "Sunday"][d]
  }

  /** The weekend flag marks exactly Saturdays and Sundays. */
  lemma WeekendIsSaturdayOrSunday(d: int)
    requires 0 <= d < 7
    ensures d >= 5 <==> DayName(d) == "Saturday" || DayName(d) == "Sunday"
  {
    var names := ["Monday", "Tuesday", "Wednesday", "Thursday", "Friday", "Saturday", "Sunday"];
    assert DayName(d) == names[d];
    if d < 5 {
      assert names[d][0] != 'S';
    }
  }

  /** The timestamp a row contributes: `read_at` when the table has it,
      otherwise `created_at`. */
  function StampOf(frame: LogFrame, row: RawLog): Option<Stamp>
  {
    if frame.hasReadAt then row.readAt else row.createdAt
  }

  /** A numeric cell after coercion: an empty cell and a non-number both
      become 0, and a number stays itself. */
  function NumberOr0(cell: Option<real>): (r: real)
    ensures cell.Some? ==> r == cell.value
    ensures cell.None? ==> r == 0.0
  {
    if cell.Some? then cell.value else 0.0
  }

  /** Pages per minute, 0 when no positive reading time was logged. */
  function PagesPerMinute(pages: real, minutes: real): (r: real)
    ensures minutes > 0.0 ==> r * minutes == pages
    ensures minutes <= 0.0 ==> r == 0.0
  {
    if minutes > 0.0 then pages / minutes else 0.0
  }

  /** What every preprocessed session satisfies. */
  ghost predicate WellFormed(s: Session)
  {
    && 0 <= s.hour < 24
    && DayStart(s.at.seconds) + s.hour * SecondsPerHour <= s.at.seconds < DayStart(s.at.seconds) + (s.hour + 1) * SecondsPerHour
    && 0 <= s.weekday < 7
    && (s.weekend <==> s.weekday >= 5)
    && (s.minutes > 0.0 ==> s.ppm * s.minutes == s.pages)
    && (s.minutes <= 0.0 ==> s.ppm == 0.0)
  }

  function MakeSession(frame: LogFrame, row: RawLog, at: Stamp): (s: Session)
    ensures WellFormed(s)
    ensures s.userId == row.userId && s.at == at
    ensures s.minutes == NumberOr0(row.minutes)
    ensures s.pages == NumberOr0(row.pages)
  {
    var minutes := NumberOr0(row.minutes);
    var pages := NumberOr0(row.pages);
    var weekday := WeekdayOf(at.seconds);
    Session(row.userId, at, HourOf(at.seconds), weekday, weekday >= 5, minutes, pages, PagesPerMinute(pages, minutes))
  }

  /** The rows that keep a timestamp, turned into sessions, in table order. */
  function SessionsOf(frame: LogFrame, rows: seq<RawLog>): (r: seq<Session>)
    ensures |r| <= |rows|
    ensures forall k :: 0 <= k < |r| ==> WellFormed(r[k])
  {
    if |rows| == 0 then []
    else
      var rest := SessionsOf(frame, rows[1..]);
      match StampOf(frame, rows[0])
      case None => rest
      case Some(at) => [MakeSession(frame, rows[0], at)] + rest
  }

  /** `preprocess_logs`: fails when the table has neither timestamp column,
      and otherwise when it lacks the minutes column or the pages column,
      checked in that order. */
  function Preprocess(frame: LogFrame): (r: Result<seq<Session>, PreprocessError>)
    ensures r.Err? <==> (!frame.hasReadAt && !frame.hasCreatedAt) || !frame.hasMinutes || !frame.hasPages
    ensures r == Err(MissingTimestampColumn) <==> !frame.hasReadAt && !frame.hasCreatedAt
    ensures r == Err(MissingMinutesColumn) <==> (frame.hasReadAt || frame.hasCreatedAt) && !frame.hasMinutes
    ensures r == Err(MissingPagesColumn) <==> (frame.hasReadAt || frame.hasCreatedAt) && frame.hasMinutes && !frame.hasPages
    ensures r.Ok? ==> |r.value| <= |frame.rows|
    ensures r.Ok? ==> forall k :: 0 <= k < |r.value| ==> WellFormed(r.value[k])
  {
    if !frame.hasReadAt && !frame.hasCreatedAt then Err(MissingTimestampColumn)
    else if !frame.hasMinutes then Err(MissingMinutesColumn)
    else if !frame.hasPages then Err(MissingPagesColumn)
    else Ok(SessionsOf(frame, frame.rows))
  }

  /** Whether preprocessing fails depends on the columns alone: a table
      without a numeric column fails even when it has no rows. */
  lemma FailureIgnoresRows(frame: LogFrame, rows: seq<RawLog>)
    ensures Preprocess(frame.(rows := rows)).Err? <==> Preprocess(frame).Err?
    ensures Preprocess(frame).Err? ==> Preprocess(frame.(rows := rows)) == Preprocess(frame)
  {
  }

  /** Preprocessing is row by row: the sessions of two blocks of rows are
      the sessions of each block, concatenated. */
  lemma {:induction false} SessionsOfAppend(frame: LogFrame, a: seq<RawLog>, b: seq<RawLog>)
    ensures SessionsOf(frame, a + b) == SessionsOf(frame, a) + SessionsOf(frame, b)
    decreases |a|
  {
    if |a| == 0 {
      assert a + b == b;
    } else {
      assert (a + b)[0] == a[0] && (a + b)[1..] == a[1..] + b;
      SessionsOfAppend(frame, a[1..], b);
    }
  }

  /** A single row gives one session exactly when its timestamp is usable. */
  lemma SessionsOfRow(frame: LogFrame, row: RawLog)
    ensures StampOf(frame, row).None? ==> SessionsOf(frame, [row]) == []
    ensures StampOf(frame, row).Some? ==>
      SessionsOf(frame, [row]) == [MakeSession(frame, row, StampOf(frame, row).value)]
  {
    assert [row][1..] == [];
  }

  function CountStamped(frame: LogFrame, rows: seq<RawLog>): nat
  {
    if |rows| == 0 then 0
    else (if StampOf(frame, rows[0]).Some? then 1 else 0) + CountStamped(frame, rows[1..])
  }

  /** Exactly the rows with a usable timestamp survive, and each becomes a
      session carrying that row's user and timestamp. */
  lemma SessionsOfKeepsStamped(frame: LogFrame, rows: seq<RawLog>)
    ensures |SessionsOf(frame, rows)| == CountStamped(frame, rows)
    ensures forall k :: 0 <= k < |rows| && StampOf(frame, rows[k]).Some? ==>
      exists s :: s in SessionsOf(frame, rows) && s.userId == rows[k].userId && s.at == StampOf(frame, rows[k]).value
    ensures forall s :: s in SessionsOf(frame, rows) ==>
      exists k :: 0 <= k < |rows| && s.userId == rows[k].userId && StampOf(frame, rows[k]) == Some(s.at)
  {
    SessionsOfCount(frame, rows);
    forall k | 0 <= k < |rows| && StampOf(frame, rows[k]).Some?
      ensures exists s :: s in SessionsOf(frame, rows) && s.userId == rows[k].userId && s.at == StampOf(frame, rows[k]).value
    {
      SessionsOfComplete(frame, rows, k);
    }
    forall s | s in SessionsOf(frame, rows)
      ensures exists k :: 0 <= k < |rows| && s.userId == rows[k].userId && StampOf(frame, rows[k]) == Some(s.at)
    {
      var k := SessionsOfSound(frame, rows, s);
    }
  }

  lemma {:induction false} SessionsOfCount(frame: LogFrame, rows: seq<RawLog>)
    ensures |SessionsOf(frame, rows)| == CountStamped(frame, rows)
    decreases |rows|
  {
    if |rows| > 0 {
      SessionsOfCount(frame, rows[1..]);
    }
  }

  /** A row with a usable timestamp yields its session. */
  lemma {:induction false} SessionsOfComplete(frame: LogFrame, rows: seq<RawLog>, k: nat)
    requires k < |rows| && StampOf(frame, rows[k]).Some?
    ensures MakeSession(frame, rows[k], StampOf(frame, rows[k]).value) in SessionsOf(frame, rows)
    decreases k
  {
    if k > 0 {
      assert rows[1..][k - 1] == rows[k];
      SessionsOfComplete(frame, rows[1..], k - 1);
    }
  }

  /** Every session comes from a row with a usable timestamp. */
  lemma {:induction false} SessionsOfSound(frame: LogFrame, rows: seq<RawLog>, s: Session) returns (k: nat)
    requires s in SessionsOf(frame, rows)
    ensures k < |rows| && s.userId == rows[k].userId && StampOf(frame, rows[k]) == Some(s.at)
    decreases |rows|
  {
    var rest := SessionsOf(frame, rows[1..]);
    if StampOf(frame, rows[0]).Some? && s == MakeSession(frame, rows[0], StampOf(frame, rows[0]).value) {
      k := 0;
    } else {
      assert s in rest;
      var j := SessionsOfSound(frame, rows[1..], s);
      assert rows[1..][j] == rows[j + 1];
      k := j + 1;
    }
  }

  /** With a `read_at` column, the `created_at` column is never consulted. */
  lemma ReadAtPreferred(frame: LogFrame, created: seq<Option<Stamp>>)
    requires frame.hasReadAt && |created| == |frame.rows|
    ensures Preprocess(frame.(hasCreatedAt := true, rows := WithCreatedAt(frame.rows, created))) == Preprocess(frame)
  {
    WithCreatedAtIgnored(frame.(hasCreatedAt := true, rows := WithCreatedAt(frame.rows, created)), frame, frame.rows, created);
  }

  /** The rows with their `created_at` cells replaced. */
  function WithCreatedAt(rows: seq<RawLog>, created: seq<Option<Stamp>>): (r: seq<RawLog>)
    requires |created| == |rows|
    ensures |r| == |rows|
  {
    if |rows| == 0 then [] else [rows[0].(createdAt := created[0])] + WithCreatedAt(rows[1..], created[1..])
  }

  lemma {:induction false} WithCreatedAtIgnored(f: LogFrame, g: LogFrame, rows: seq<RawLog>, created: seq<Option<Stamp>>)
    requires f.hasReadAt && g.hasReadAt
    requires |created| == |rows|
    ensures SessionsOf(f, WithCreatedAt(rows, created)) == SessionsOf(g, rows)
    decreases |rows|
  {
    if |rows| > 0 {
      WithCreatedAtIgnored(f, g, rows[1..], created[1..]);
      var w := WithCreatedAt(rows, created);
      assert w[0] == rows[0].(createdAt := created[0]) && w[1..] == WithCreatedAt(rows[1..], created[1..]);
    }
  }

  // ---- per-user and per-week views shared by the goal rules ----

  function UserIds(ss: seq<Session>): (r: seq<int>)
    ensures |r| == |ss|
    ensures forall k :: 0 <= k < |ss| ==> r[k] == ss[k].userId
  {
    if |ss| == 0 then [] else [ss[0].userId] + UserIds(ss[1..])
  }

  /** The sessions of one user, in log order. */
  function OfUser(ss: seq<Session>, u: int): (r: seq<Session>)
    ensures |r| <= |ss|
    ensures forall s :: s in r <==> s in ss && s.userId == u
  {
    if |ss| == 0 then []
    else
      var rest := OfUser(ss[1..], u);
      assert forall s :: s in ss <==> s == ss[0] || s in ss[1..] by {
        assert ss == [ss[0]] + ss[1..];
      }
      if ss[0].userId == u then [ss[0]] + rest else rest
  }

  function Hours(ss: seq<Session>): (r: seq<int>)
    ensures |r| == |ss|
    ensures forall k :: 0 <= k < |ss| ==> r[k] == ss[k].hour
  {
    if |ss| == 0 then [] else [ss[0].hour] + Hours(ss[1..])
  }

  function MinutesOf(ss: seq<Session>): (r: seq<real>)
    ensures |r| == |ss|
    ensures forall k :: 0 <= k < |ss| ==> r[k] == ss[k].minutes
  {
    if |ss| == 0 then [] else [ss[0].minutes] + MinutesOf(ss[1..])
  }

  function Weeks(ss: seq<Session>): (r: seq<int>)
    ensures |r| == |ss|
    ensures forall k :: 0 <= k < |ss| ==> r[k] == ss[k].at.isoWeek
  {
    if |ss| == 0 then [] else [ss[0].at.isoWeek] + Weeks(ss[1..])
  }

  /** Number of sessions in ISO week `w` (`groupby('week').size()`). */
  function CountInWeek(ss: seq<Session>, w: int): nat
  {
    if |ss| == 0 then 0
    else (if ss[0].at.isoWeek == w then 1 else 0) + CountInWeek(ss[1..], w)
  }

  /** Minutes read in ISO week `w` (`groupby('week')['minutes_read'].sum()`). */
  function MinutesInWeek(ss: seq<Session>, w: int): real
  {
    if |ss| == 0 then 0.0
    else (if ss[0].at.isoWeek == w then ss[0].minutes else 0.0) + MinutesInWeek(ss[1..], w)
  }

  /** The four largest ISO week numbers present, largest first. The year is
      not part of the key, so week 1 of a new year sorts below week 52 of
      the old one. */
  function RecentWeeks(ss: seq<Session>): (r: seq<int>)
    ensures |r| <= 4
    ensures forall w :: w in r ==> w in Weeks(ss)
    ensures forall i, j :: 0 <= i < j < |r| ==> r[i] > r[j]
    ensures forall w :: w in Weeks(ss) && w !in r ==> |r| == 4 && forall v :: v in r ==> v > w
    ensures |ss| > 0 ==> |r| > 0
  {
    assert |ss| > 0 ==> Weeks(ss)[0] in Weeks(ss);
    LargestDistinct(Weeks(ss), 4)
  }

  /** A week that is present has at least one session. */
  lemma {:induction false} CountInPresentWeek(ss: seq<Session>, w: int)
    requires w in Weeks(ss)
    ensures CountInWeek(ss, w) >= 1
    decreases |ss|
  {
    if ss[0].at.isoWeek != w {
      assert Weeks(ss) == [ss[0].at.isoWeek] + Weeks(ss[1..]);
      CountInPresentWeek(ss[1..], w);
    }
  }

  /** Session counts per week never exceed the number of sessions. */
  lemma {:induction false} CountInWeekBound(ss: seq<Session>, w: int)
    ensures CountInWeek(ss, w) <= |ss|
    decreases |ss|
  {
    if |ss| > 0 {
      CountInWeekBound(ss[1..], w);
    }
  }
}
