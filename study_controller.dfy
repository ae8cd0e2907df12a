/** The study-session controller: logging a session (with its input
    checks), the streak bookkeeping that follows every logged session,
    reading a user's streak, and listing a user's sessions for a period with
    paging and a summary.

    The `StudyLog` and `Streak` collections are the fields of `StudyStore`;
    the `User` collection, the clock and the calendar are parameters. */
module StudyController {
  import opened Base
  import opened StreakModel
  import Sorting

  /** Milliseconds in a day: `1000 * 60 * 60 * 24`. */
  const DAY_MS: int := 86400000

  /** `Math.floor((today - lastActive) / DAY_MS)`; Dafny's `/` with a positive
      divisor rounds toward negative infinity, like `Math.floor`. */
  function DaysDiff(today: int, lastActive: int): (d: int)
    ensures DAY_MS * d <= today - lastActive < DAY_MS * (d + 1)
  {
    (today - lastActive) / DAY_MS
  }

  function Max(a: int, b: int): int { if a >= b then a else b }

  // ---------------------------------------------------------------------
  // updateUserStreak

  /** The record `updateUserStreak` saves for a session dated `studyDate`,
      given the user's current record `s`; `None` when it returns before
      saving (a session on the same day as the last activity). */
  function StreakUpdate(s: Streak, studyDate: int): (r: Option<Streak>)
    ensures r == None <==> DaysDiff(studyDate, s.lastActiveDate) == 0
    ensures r.Some? ==> r.value.userId == s.userId && r.value.lastActiveDate == studyDate
    ensures r.Some? ==> r.value.longestStreak == Max(s.longestStreak, r.value.streakCount)
    ensures DaysDiff(studyDate, s.lastActiveDate) == 1 ==>
      r.Some? && r.value.streakCount == s.streakCount + 1 && r.value.totalStudyDays == s.totalStudyDays + 1
    ensures DaysDiff(studyDate, s.lastActiveDate) > 1 ==>
      r.Some? && r.value.streakCount == 1 && r.value.totalStudyDays == s.totalStudyDays + 1
    ensures DaysDiff(studyDate, s.lastActiveDate) < 0 ==>
      r.Some? && r.value.streakCount == s.streakCount && r.value.totalStudyDays == s.totalStudyDays
    ensures Consistent(s) && r.Some? ==> Consistent(r.value)
  {
    var d := DaysDiff(studyDate, s.lastActiveDate);
    if d == 0 then None
    else
      var count := if d == 1 then s.streakCount + 1 else if d > 1 then 1 else s.streakCount;
      var total := if d >= 1 then s.totalStudyDays + 1 else s.totalStudyDays;
      Some(Streak(s.userId, count, studyDate, Max(s.longestStreak, count), total))
  }

  /** The user's record as `updateUserStreak` finds it: the stored one, or a
      fresh default created at `now`. */
  function CurrentOrNew(records: map<UserId, Streak>, userId: UserId, now: int): (s: Streak)
    ensures userId in records ==> s == records[userId]
    ensures userId !in records ==> s == NewStreak(userId, now)
  {
    if userId in records then records[userId] else NewStreak(userId, now)
  }

  /** The streak collection after `updateUserStreak(userId, studyDate)`,
      where `createdAt` is the instant a missing record would be created
      (the schema's `Date.now` default, taken after the log was saved). */
  function StreaksAfterLog(records: map<UserId, Streak>, userId: UserId, studyDate: int, createdAt: int)
    : (r: map<UserId, Streak>)
    ensures forall u :: u != userId ==> (u in r <==> u in records) && (u in records ==> r[u] == records[u])
    ensures ValidStore(records) ==> ValidStore(r)
  {
    match StreakUpdate(CurrentOrNew(records, userId, createdAt), studyDate)
    case None => records
    case Some(s) => records[userId := s]
  }

  /** A session on the same whole day as the last activity changes nothing,
      not even `lastActiveDate`. */
  lemma SameDayChangesNothing(records: map<UserId, Streak>, userId: UserId, studyDate: int, createdAt: int)
    requires userId in records
    requires DaysDiff(studyDate, records[userId].lastActiveDate) == 0
    ensures StreaksAfterLog(records, userId, studyDate, createdAt) == records
  {
  }

  /** A backdated session changes no counter but moves `lastActiveDate`
      back to the earlier date, and that is saved. */
  lemma BackdatedMovesDateBack(records: map<UserId, Streak>, userId: UserId, studyDate: int, createdAt: int)
    requires userId in records && Consistent(records[userId])
    requires studyDate < records[userId].lastActiveDate
    ensures var r := StreaksAfterLog(records, userId, studyDate, createdAt);
      userId in r && r[userId] == records[userId].(lastActiveDate := studyDate)
  {
    assert DaysDiff(studyDate, records[userId].lastActiveDate) < 0;
  }

  /** After every saving update the longest streak is at least the current one. */
  lemma LongestCoversCurrent(records: map<UserId, Streak>, userId: UserId, studyDate: int, createdAt: int)
    ensures var r := StreaksAfterLog(records, userId, studyDate, createdAt);
      userId in r && r != records ==> r[userId].longestStreak >= r[userId].streakCount
  {
  }

  /** A user's first session, dated at or before the moment the default
      record is created, takes the `daysDiff <= 0` path: no streak starts. */
  lemma FirstLogStartsNoStreak(records: map<UserId, Streak>, userId: UserId, studyDate: int, createdAt: int)
    requires userId !in records
    requires studyDate <= createdAt
    ensures var r := StreaksAfterLog(records, userId, studyDate, createdAt);
      userId in r ==> r[userId].streakCount == 0 && r[userId].totalStudyDays == 0
  {
    assert DaysDiff(studyDate, createdAt) <= 0;
  }

  /** The two ways a user's first session logged without a date ends: when
      the record is created in the same millisecond as the log's date,
      `daysDiff` is 0 and nothing is saved; when it is created later (within
      a day, as it normally is), `daysDiff` is -1 and a record with zero counts
      dated at the session is saved. */
  lemma FirstDatelessLog(records: map<UserId, Streak>, userId: UserId, logDate: int, createdAt: int)
    requires userId !in records
    requires logDate <= createdAt <= logDate + DAY_MS
    ensures createdAt == logDate ==> StreaksAfterLog(records, userId, logDate, createdAt) == records
    ensures logDate < createdAt ==>
      StreaksAfterLog(records, userId, logDate, createdAt) == records[userId := Streak(userId, 0, logDate, 0, 0)]
  {
    if logDate < createdAt {
      DaysDiffMinusOne(logDate, createdAt);
    }
  }

  lemma DaysDiffMinusOne(a: int, b: int)
    requires a < b <= a + DAY_MS
    ensures DaysDiff(a, b) == -1
  {
  }

  /** The zero record a first session leaves lets the next day's session
      start a streak of 1, whatever instant a later record lookup runs at. */
  lemma ZeroRecordThenNextDay(records: map<UserId, Streak>, userId: UserId, day: int, createdAt: int)
    requires records == map[userId := Streak(userId, 0, day, 0, 0)]
    ensures var r := StreaksAfterLog(records, userId, day + DAY_MS, createdAt);
      r[userId] == Streak(userId, 1, day + DAY_MS, 1, 1)
  {
    assert DaysDiff(day + DAY_MS, day) == 1;
  }

  // ---------------------------------------------------------------------
  // getUserStreak

  /** The record `getUserStreak` sends: the streak shows 0 once more than one
      whole day has passed since the last activity; nothing is saved. */
  function ShownStreak(s: Streak, now: int): (r: Streak)
    ensures DaysDiff(now, s.lastActiveDate) > 1 ==> r.streakCount == 0
    ensures DaysDiff(now, s.lastActiveDate) <= 1 ==> r.streakCount == s.streakCount
    ensures r.longestStreak == s.longestStreak && r.totalStudyDays == s.totalStudyDays
    ensures r.lastActiveDate == s.lastActiveDate && r.userId == s.userId
  {
    if DaysDiff(now, s.lastActiveDate) > 1 then s.(streakCount := 0) else s
  }

  // ---------------------------------------------------------------------
  // addStudyLog

  datatype StudyLog = StudyLog(
    userId: UserId,
    subject: string,
    hours: int,          // tenths of an hour
    date: int,
    notes: Option<string>,
    difficulty: string)

  const REQUIRED_MSG: string := "Subject and hours are required"
  const RANGE_MSG: string := "Hours must be between 0.1 and 24"

  predicate IsFalsyText(s: Option<string>) { s == None || s == Some("") }

  predicate IsFalsyHours(h: Option<int>) { h == None || h == Some(0) }

  /** The two guards at the top of `addStudyLog`, hours in tenths:
      `None` when the input passes them, otherwise the 400 message. */
  function CheckStudyLogInput(subject: Option<string>, hours: Option<int>): (r: Option<string>)
    ensures r == Some(REQUIRED_MSG) <==> IsFalsyText(subject) || IsFalsyHours(hours)
    ensures r == Some(RANGE_MSG) <==>
      !IsFalsyText(subject) && !IsFalsyHours(hours) && (hours.value < 1 || hours.value > 240)
    ensures r == None <==> !IsFalsyText(subject) && hours.Some? && 1 <= hours.value <= 240
  {
    if IsFalsyText(subject) || IsFalsyHours(hours) then Some(REQUIRED_MSG)
    else if hours.value < 1 || hours.value > 240 then Some(RANGE_MSG)
    else None
  }

  /** The schema's checks at `save`: a non-empty trimmed subject, hours in
      [0.1, 24], notes of at most 500 characters, a known difficulty. */
  predicate LogSchemaValid(log: StudyLog)
  {
    && log.subject != ""
    && 1 <= log.hours <= 240
    && (log.notes.Some? ==> |log.notes.value| <= 500)
    && log.difficulty in {"Easy", "Medium", "Hard"}
  }

  /** The document `new StudyLog({...})` builds: trimmed subject and notes,
      the given date unless it is falsy, difficulty defaulting to Medium. */
  function BuildLog(userId: UserId, subject: string, hours: int, date: Option<int>,
                    notes: Option<string>, difficulty: Option<string>, now: int): StudyLog
  {
    StudyLog(userId, Trim(subject), hours,
             if date.Some? && date.value != 0 then date.value else now,
             match notes case None => None case Some(n) => Some(Trim(n)),
             difficulty.GetOr("Medium"))
  }

  datatype AddOutcome = Rejected(message: string) | SaveFailed | Logged(log: StudyLog)

  /** What `addStudyLog` does with a request: a 400 from the guards, a 500
      when the schema refuses the document at `save`, otherwise the new log. */
  function AddStudyLogOutcome(userId: UserId, subject: Option<string>, hours: Option<int>,
                              date: Option<int>, notes: Option<string>,
                              difficulty: Option<string>, now: int): (r: AddOutcome)
    ensures r.Rejected? <==> CheckStudyLogInput(subject, hours).Some?
    ensures r.Rejected? ==> r.message == CheckStudyLogInput(subject, hours).value
    ensures r.Logged? ==> LogSchemaValid(r.log) && r.log.userId == userId && r.log.hours == hours.value
    ensures r.Logged? ==> r.log.subject == Trim(subject.value)
    ensures r.Logged? ==> r.log.date == if date.Some? && date.value != 0 then date.value else now
  {
    match CheckStudyLogInput(subject, hours)
    case Some(msg) => Rejected(msg)
    case None =>
      var log := BuildLog(userId, subject.value, hours.value, date, notes, difficulty, now);
      if LogSchemaValid(log) then Logged(log) else SaveFailed
  }

  /** A subject made only of white space passes the guards (it is a
      non-empty string) and is refused only at `save`, with a 500. */
  lemma BlankSubjectIsServerError(userId: UserId, hours: int, now: int)
    requires 1 <= hours <= 240
    ensures AddStudyLogOutcome(userId, Some("   "), Some(hours), None, None, None, now) == SaveFailed
  {
    assert CheckStudyLogInput(Some("   "), Some(hours)) == None;
    assert TrimStart("   ") == "" by {
      assert "   "[1..] == "  " && "  "[1..] == " " && " "[1..] == "";
    }
    assert Trim("   ") == "";
    assert !LogSchemaValid(BuildLog(userId, "   ", hours, None, None, None, now));
  }

  // ---------------------------------------------------------------------
  // getStudyLogs

  /** The start of the period: the last seven days for "week" and for any
      unknown value, or the given start of this month / this year (calendar
      arithmetic is not part of this model). */
  function PeriodStart(period: Option<string>, now: int, monthStart: int, yearStart: int): (start: int)
    ensures period.GetOr("week") == "month" ==> start == monthStart
    ensures period.GetOr("week") == "year" ==> start == yearStart
    ensures period.GetOr("week") != "month" && period.GetOr("week") != "year" ==> start == now - 7 * DAY_MS
  {
    match period.GetOr("week")
    case "week" => now - 7 * 24 * 60 * 60 * 1000
    case "month" => monthStart
    case "year" => yearStart
    case _ => now - 7 * 24 * 60 * 60 * 1000
  }

  /** The `find` filter: the user's logs dated within `[start, now]`. */
  predicate InWindow(log: StudyLog, userId: UserId, start: int, now: int)
  {
    log.userId == userId && start <= log.date <= now
  }

  function LogDate(log: StudyLog): int { log.date }

  function LogHours(log: StudyLog): int { log.hours }

  /** The user's logs in the window, newest first (`sort({ date: -1 })`). */
  function WindowNewestFirst(logs: seq<StudyLog>, userId: UserId, start: int, now: int): seq<StudyLog>
  {
    Sorting.SortDesc(Keep(logs, l => InWindow(l, userId, start, now)), LogDate)
  }

  /** A value in a MongoDB filter: an ObjectId and a string never compare equal. */
  datatype Bson = ObjectIdValue(oid: int) | StringValue(text: string)

  /** The aggregation's `$match` stage on one stored log. */
  predicate SummaryMatch(log: StudyLog, userValue: Bson, start: int, now: int)
  {
    ObjectIdValue(log.userId) == userValue && start <= log.date <= now
  }

  datatype Summary = Summary(totalHours: int, totalSessions: int, subjects: set<string>)

  /** The aggregation's `$match` followed by its `$group`; `userValue` is the
      value the pipeline compares the stored ObjectId with. Pipelines are not
      cast by the driver, so the value is used exactly as given. */
  function SummaryOf(logs: seq<StudyLog>, userValue: Bson, start: int, now: int): (r: Summary)
    ensures r.totalSessions == |Keep(logs, l => SummaryMatch(l, userValue, start, now))|
    ensures r.totalHours == SumBy(Keep(logs, l => SummaryMatch(l, userValue, start, now)), LogHours)
    ensures forall x :: x in r.subjects <==> exists l :: l in logs && SummaryMatch(l, userValue, start, now) && l.subject == x
  {
    var matched := Keep(logs, l => SummaryMatch(l, userValue, start, now));
    forall l ensures l in matched <==> l in logs && SummaryMatch(l, userValue, start, now) {
      KeepMembership(logs, l => SummaryMatch(l, userValue, start, now), l);
    }
    Summary(SumBy(matched, LogHours), |matched|, set l | l in matched :: l.subject)
  }

  /** `Math.ceil(n / limit)` as JSON carries it: `None` stands for the
      `null` that Infinity and NaN (a zero limit) become. */
  function CeilDiv(n: nat, limit: int): (r: Option<int>)
    ensures limit > 0 ==> r.Some? && r.value >= 0 && n <= r.value * limit
    ensures limit > 0 && r.Some? && r.value > 0 ==> (r.value - 1) * limit < n
    ensures limit == 0 ==> r == None
  {
    if limit > 0 then Some((n + limit - 1) / limit)
    else if limit == 0 then None
    else Some(-(n / -limit))
  }

  datatype Pagination = Pagination(currentPage: int, totalPages: Option<int>)

  datatype LogsPage = LogsPage(studyLogs: seq<StudyLog>, summary: Summary, pagination: Pagination)

  /** `getStudyLogs(userId)` as written. `rawUserId` is the path parameter
      string; `userId` the id it casts to. `page` and `limit` default to 1
      and 20. The page is the sorted window after skipping `(page - 1) *
      limit` logs; `totalPages` is computed from the page's own length, and
      the summary from the uncast parameter. */
  function GetStudyLogs(logs: seq<StudyLog>, users: set<UserId>, userId: UserId, rawUserId: string,
                        period: Option<string>, page: Option<int>, limit: Option<int>,
                        now: int, monthStart: int, yearStart: int): (r: Reply<LogsPage>)
    ensures userId !in users ==> r == Error(404, "User not found")
    ensures userId in users ==> (r.Error? <==> (page.GetOr(1) - 1) * limit.GetOr(20) < 0)
    ensures r.Error? && userId in users ==> r == Error(500, "Server error")
    ensures var start := PeriodStart(period, now, monthStart, yearStart);
      r.Ok? ==>
        && Some(r.body.studyLogs)
             == SkipLimit(WindowNewestFirst(logs, userId, start, now), (page.GetOr(1) - 1) * limit.GetOr(20), limit.GetOr(20))
        && Sorting.SortedDesc(r.body.studyLogs, LogDate)
        && (forall l :: l in r.body.studyLogs ==> l in logs && InWindow(l, userId, start, now))
        && r.body.summary == SummaryOf(logs, StringValue(rawUserId), start, now)
        && r.body.pagination == Pagination(page.GetOr(1), CeilDiv(|r.body.studyLogs|, limit.GetOr(20)))
  {
    if userId !in users then Error(404, "User not found")
    else
      var p, n := page.GetOr(1), limit.GetOr(20);
      var start := PeriodStart(period, now, monthStart, yearStart);
      var sorted := WindowNewestFirst(logs, userId, start, now);
      match SkipLimit(sorted, (p - 1) * n, n)
      case None => Error(500, "Server error")
      case Some(pageLogs) =>
        WindowMembers(logs, userId, start, now, pageLogs);
        Sorting.SortDescSorted(Keep(logs, l => InWindow(l, userId, start, now)), LogDate);
        Sorting.SkipLimitSorted(sorted, (p - 1) * n, n, LogDate);
        Ok(LogsPage(pageLogs, SummaryOf(logs, StringValue(rawUserId), start, now),
                    Pagination(p, CeilDiv(|pageLogs|, n))))
  }

  /** Every log on a page of the sorted window is one of the user's logs in the window. */
  lemma WindowMembers(logs: seq<StudyLog>, userId: UserId, start: int, now: int, pageLogs: seq<StudyLog>)
    requires forall l :: l in pageLogs ==> l in WindowNewestFirst(logs, userId, start, now)
    ensures forall l :: l in pageLogs ==> l in logs && InWindow(l, userId, start, now)
  {
    var kept := Keep(logs, l => InWindow(l, userId, start, now));
    Sorting.SortDescPerm(kept, LogDate);
    forall l | l in pageLogs ensures l in logs && InWindow(l, userId, start, now) {
      assert l in multiset(WindowNewestFirst(logs, userId, start, now));
      assert l in multiset(kept);
    }
  }

  /** As written, `totalPages` is computed from the page itself, so with a
      positive limit it is never more than 1. */
  lemma TotalPagesAtMostOne(logs: seq<StudyLog>, users: set<UserId>, userId: UserId, rawUserId: string,
                             period: Option<string>, page: Option<int>, limit: int,
                             now: int, monthStart: int, yearStart: int)
    requires limit >= 1
    ensures var r := GetStudyLogs(logs, users, userId, rawUserId, period, page, Some(limit), now, monthStart, yearStart);
      r.Ok? ==> r.body.pagination.totalPages.Some? && 0 <= r.body.pagination.totalPages.value <= 1
  {
    var r := GetStudyLogs(logs, users, userId, rawUserId, period, page, Some(limit), now, monthStart, yearStart);
    if r.Ok? {
      var n := |r.body.studyLogs|;
      assert n <= limit;
      CeilDivAtMostOne(n, limit);
    }
  }

  lemma CeilDivAtMostOne(n: nat, limit: int)
    requires 1 <= limit && n <= limit
    ensures CeilDiv(n, limit).Some? && 0 <= CeilDiv(n, limit).value <= 1
  {
    var q := CeilDiv(n, limit).value;
    if q > 0 {
      ProductBelowFactor(q - 1, limit);
    }
  }

  /** `a * m < m` with a positive `m` forces `a < 1`. */
  lemma ProductBelowFactor(a: int, m: int)
    requires m > 0 && a * m < m
    ensures a < 1
  {
  }

  /** As written, the summary's `$match` compares the stored ObjectId with
      the path parameter string, which never matches: the summary is always
      the empty default. */
  lemma SummaryAlwaysEmpty(logs: seq<StudyLog>, rawUserId: string, start: int, now: int)
    ensures SummaryOf(logs, StringValue(rawUserId), start, now) == Summary(0, 0, {})
  {
    KeepNone(logs, l => SummaryMatch(l, StringValue(rawUserId), start, now));
  }

  /** The guard-free 45-log window that shows the paging gap: with 20 per
      page the first page reports `totalPages` 1 while 3 pages exist. */
  lemma TotalPagesExample()
    ensures CeilDiv(|SkipLimit(seq(45, i => i), 0, 20).value|, 20) == Some(1)
    ensures TotalPagesCorrected(45, 20) == 3
  {
  }

  /** The evidently intended `totalPages`: pages needed for all `count`
      matching logs. */
  function TotalPagesCorrected(count: nat, limit: int): (r: nat)
    requires limit >= 1
    ensures r * limit >= count
    ensures r > 0 ==> (r - 1) * limit < count
  {
    (count + limit - 1) / limit
  }

  /** The evidently intended summary: the `$match` value cast to an ObjectId,
      so the summary counts exactly the user's logs in the window. */
  function SummaryCorrected(logs: seq<StudyLog>, userId: UserId, start: int, now: int): (r: Summary)
    ensures r.totalSessions == |Keep(logs, l => InWindow(l, userId, start, now))|
    ensures r.totalHours == SumBy(Keep(logs, l => InWindow(l, userId, start, now)), LogHours)
    ensures forall x :: x in r.subjects <==> exists l :: l in logs && InWindow(l, userId, start, now) && l.subject == x
  {
    var s := SummaryOf(logs, ObjectIdValue(userId), start, now);
    KeepSamePredicate(logs, l => SummaryMatch(l, ObjectIdValue(userId), start, now),
                      l => InWindow(l, userId, start, now));
    s
  }

  lemma {:induction false} KeepSamePredicate<T>(s: seq<T>, p: T -> bool, q: T -> bool)
    requires forall x :: p(x) == q(x)
    ensures Keep(s, p) == Keep(s, q)
  {
    if s != [] {
      KeepSamePredicate(s[1..], p, q);
    }
  }

  // ---------------------------------------------------------------------
  // the streak transition, corrected

  /** The evidently intended transition: a backdated session (negative
      `daysDiff`) leaves the record alone, so `lastActiveDate` never moves back. */
  function StreakUpdateCorrected(s: Streak, studyDate: int): (r: Option<Streak>)
    ensures r == None <==> DaysDiff(studyDate, s.lastActiveDate) <= 0
    ensures r.Some? ==> r.value.lastActiveDate >= s.lastActiveDate + DAY_MS
    ensures r.Some? ==> r.value.totalStudyDays == s.totalStudyDays + 1
  {
    if DaysDiff(studyDate, s.lastActiveDate) <= 0 then None else StreakUpdate(s, studyDate)
  }

  /** A record after a sequence of sessions, as written and corrected. */
  function RunAsWritten(s: Streak, dates: seq<int>): Streak
    decreases |dates|
  {
    if dates == [] then s
    else RunAsWritten(StreakUpdate(s, dates[0]).GetOr(s), dates[1..])
  }

  function RunCorrected(s: Streak, dates: seq<int>): Streak
    decreases |dates|
  {
    if dates == [] then s
    else RunCorrected(StreakUpdateCorrected(s, dates[0]).GetOr(s), dates[1..])
  }

  /** As written, alternating a session today with a backdated one counts
      the same day twice: two extra study days in one day's time. */
  lemma BackdatingDoubleCounts()
    ensures var s0 := Streak(1, 1, 0, 1, 1);
      var s := RunAsWritten(s0, [DAY_MS, 0, DAY_MS]);
      s.totalStudyDays == 3 && s.lastActiveDate == DAY_MS &&
      s.lastActiveDate - s0.lastActiveDate < DAY_MS * (s.totalStudyDays - s0.totalStudyDays)
  {
    var s0 := Streak(1, 1, 0, 1, 1);
    var s1 := StreakUpdate(s0, DAY_MS).value;
    assert s1 == Streak(1, 2, DAY_MS, 2, 2);
    var s2 := StreakUpdate(s1, 0).value;
    assert s2 == Streak(1, 2, 0, 2, 2);
    var s3 := StreakUpdate(s2, DAY_MS).value;
    assert s3 == Streak(1, 3, DAY_MS, 3, 3);
    var dates := [DAY_MS, 0, DAY_MS];
    assert dates[1..] == [0, DAY_MS] && dates[1..][1..] == [DAY_MS] && dates[1..][1..][1..] == [];
    assert RunAsWritten(s0, dates) == RunAsWritten(s1, [0, DAY_MS]);
    assert RunAsWritten(s1, [0, DAY_MS]) == RunAsWritten(s2, [DAY_MS]);
    assert RunAsWritten(s2, [DAY_MS]) == RunAsWritten(s3, []);
  }

  /** With the correction, each counted study day needs a full day of
      progress in `lastActiveDate`, whatever the order of the sessions. */
  lemma {:induction false} CorrectedRunSpacing(s: Streak, dates: seq<int>)
    ensures var t := RunCorrected(s, dates);
      t.lastActiveDate - s.lastActiveDate >= DAY_MS * (t.totalStudyDays - s.totalStudyDays)
    decreases |dates|
  {
    if dates != [] {
      var next := StreakUpdateCorrected(s, dates[0]).GetOr(s);
      CorrectedRunSpacing(next, dates[1..]);
    }
  }

  /** The evidently intended bookkeeping for a user's first session: the
      user's first day counts as a one-day streak. */
  function StreaksAfterLogCorrected(records: map<UserId, Streak>, userId: UserId, studyDate: int): (r: map<UserId, Streak>)
    ensures userId in r
    ensures userId !in records ==>
      r[userId].streakCount == 1 && r[userId].totalStudyDays == 1 && r[userId].longestStreak == 1
    ensures forall u :: u != userId ==> (u in r <==> u in records) && (u in records ==> r[u] == records[u])
    ensures ValidStore(records) ==> ValidStore(r)
  {
    if userId !in records then records[userId := Streak(userId, 1, studyDate, 1, 1)]
    else match StreakUpdateCorrected(records[userId], studyDate)
      case None => records
      case Some(s) => records[userId := s]
  }

  // ---------------------------------------------------------------------
  // the collections

  class StudyStore {
    var logs: seq<StudyLog>
    var streaks: map<UserId, Streak>

    ghost predicate Valid()
      reads this
    {
      ValidStore(streaks) && forall i :: 0 <= i < |logs| ==> LogSchemaValid(logs[i])
    }

    constructor ()
      ensures Valid() && logs == [] && streaks == map[]
    {
      logs := [];
      streaks := map[];
    }

    /** `updateUserStreak(userId, studyDate)`: load or create the record,
        adjust it by the whole-day difference, and save it unless the
        session fell on the same day. */
    method UpdateUserStreak(userId: UserId, studyDate: int, createdAt: int)
      requires Valid()
      modifies this
      ensures Valid()
      ensures logs == old(logs)
      ensures streaks == StreaksAfterLog(old(streaks), userId, studyDate, createdAt)
    {
      var streak: Streak;
      if userId in streaks {
        streak := streaks[userId];
      } else {
        streak := NewStreak(userId, createdAt);
      }
      var today := studyDate;
      var lastActive := streak.lastActiveDate;
      var daysDiff := (today - lastActive) / DAY_MS;
      if daysDiff == 0 {
        return;
      } else if daysDiff == 1 {
        streak := streak.(streakCount := streak.streakCount + 1);
        streak := streak.(totalStudyDays := streak.totalStudyDays + 1);
      } else if daysDiff > 1 {
        streak := streak.(streakCount := 1);
        streak := streak.(totalStudyDays := streak.totalStudyDays + 1);
      }
      if streak.streakCount > streak.longestStreak {
        streak := streak.(longestStreak := streak.streakCount);
      }
      streak := streak.(lastActiveDate := today);
      streaks := streaks[userId := streak];
    }

    /** `addStudyLog`: check the input, save the log, then update the streak.
        A rejected or unsaveable request stores nothing. `now` is the
        instant the handler reads the clock for the log's default date;
        `createdAt` is the later instant at which a missing streak record
        takes its `Date.now` default. */
    method AddStudyLog(userId: UserId, subject: Option<string>, hours: Option<int>, date: Option<int>,
                       notes: Option<string>, difficulty: Option<string>, now: int, createdAt: int)
      returns (status: int, message: string)
      requires Valid()
      modifies this
      ensures Valid()
      ensures var outcome := AddStudyLogOutcome(userId, subject, hours, date, notes, difficulty, now);
        match outcome
        case Rejected(msg) =>
          status == 400 && message == msg && logs == old(logs) && streaks == old(streaks)
        case SaveFailed =>
          status == 500 && message == "Server error" && logs == old(logs) && streaks == old(streaks)
        case Logged(log) =>
          status == 201 && message == "Study session logged successfully" &&
          logs == old(logs) + [log] && streaks == StreaksAfterLog(old(streaks), userId, log.date, createdAt)
    {
      var outcome := AddStudyLogOutcome(userId, subject, hours, date, notes, difficulty, now);
      match outcome
      case Rejected(msg) =>
        status, message := 400, msg;
      case SaveFailed =>
        status, message := 500, "Server error";
      case Logged(log) =>
        logs := logs + [log];
        UpdateUserStreak(userId, log.date, createdAt);
        status, message := 201, "Study session logged successfully";
    }

    /** `getUserStreak(userId)`: 404 for an unknown user; otherwise the
        record, created (and saved) with the defaults if missing, shown
        with the streak reset when it has lapsed. */
    method GetUserStreak(users: set<UserId>, userId: UserId, now: int) returns (r: Reply<Streak>)
      requires Valid()
      modifies this
      ensures Valid()
      ensures logs == old(logs)
      ensures userId !in users ==> r == Error(404, "User not found") && streaks == old(streaks)
      ensures userId in users ==>
        streaks == old(streaks)[userId := CurrentOrNew(old(streaks), userId, now)] &&
        r == Ok(ShownStreak(streaks[userId], now))
    {
      if userId !in users {
        return Error(404, "User not found");
      }
      var streak: Streak;
      if userId in streaks {
        streak := streaks[userId];
      } else {
        streak := NewStreak(userId, now);
        streaks := streaks[userId := streak];
      }
      var daysDiff := (now - streak.lastActiveDate) / DAY_MS;
      if daysDiff > 1 {
        streak := streak.(streakCount := 0);
      }
      r := Ok(streak);
    }
  }
}
