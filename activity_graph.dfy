/** The activity graph: the study logs are bucketed by weekday (sessions
    and hours per day, Sunday first) and grouped by subject (sessions and
    hours per subject, most hours first). Hours are integer tenths. */
module ActivityGraph {
  import opened Base
  import Sorting

  /** `Date.prototype.getDay()`: 0 is Sunday. */
  type Weekday = d: int | 0 <= d < 7

  /** A study log as the graph reads it, its date already mapped to a weekday. */
  datatype GraphLog = GraphLog(weekday: Weekday, subject: string, hours: int)

  const WEEK_DAYS: seq<string> := ["Sun", "Mon", "Tue", "Wed", "Thu", "Fri", "Sat"]

  // ---------------------------------------------------------------------
  // processWeeklyData

  datatype DayBucket = DayBucket(day: string, hours: int, sessions: nat)

  predicate OnDay(l: GraphLog, d: Weekday) { l.weekday == d }

  function LogHours(l: GraphLog): int { l.hours }

  /** The number of logs on weekday `d`. */
  function SessionsOn(logs: seq<GraphLog>, d: Weekday): nat
  {
    |Keep(logs, l => OnDay(l, d))|
  }

  /** The hours logged on weekday `d`. */
  function HoursOn(logs: seq<GraphLog>, d: Weekday): int
  {
    SumBy(Keep(logs, l => OnDay(l, d)), LogHours)
  }

  /** One more log adds its hours and one session to its own day only. */
  lemma OnDaySnoc(logs: seq<GraphLog>, l: GraphLog, d: Weekday)
    ensures SessionsOn(logs + [l], d) == SessionsOn(logs, d) + (if l.weekday == d then 1 else 0)
    ensures HoursOn(logs + [l], d) == HoursOn(logs, d) + (if l.weekday == d then l.hours else 0)
  {
    KeepAppend(logs, [l], x => OnDay(x, d));
    assert [l][1..] == [];
    SumByAppend(Keep(logs, x => OnDay(x, d)), Keep([l], x => OnDay(x, d)), LogHours);
  }

  /** `weekDays.map(...)`, then one `+=` per log on `weekData[dayIndex]`. */
  method ProcessWeeklyData(logs: seq<GraphLog>) returns (week: array<DayBucket>)
    ensures fresh(week)
    ensures week[..] == WeeklyData(logs)
  {
    week := new DayBucket[7](d requires 0 <= d < 7 => DayBucket(WEEK_DAYS[d], 0, 0));
    var i := 0;
    while i < |logs|
      invariant 0 <= i <= |logs|
      invariant forall d: Weekday :: week[d] == DayBucket(WEEK_DAYS[d], HoursOn(logs[..i], d), SessionsOn(logs[..i], d))
    {
      var log := logs[i];
      var dayIndex := log.weekday;
      week[dayIndex] := week[dayIndex].(hours := week[dayIndex].hours + log.hours,
                                        sessions := week[dayIndex].sessions + 1);
      assert logs[..i + 1] == logs[..i] + [log];
      forall d: Weekday {
        OnDaySnoc(logs[..i], log, d);
      }
      i := i + 1;
    }
    assert logs[..|logs|] == logs;
    assert week[..] == WeeklyData(logs) by {
      forall d: Weekday ensures week[..][d] == WeeklyData(logs)[d] {
      }
    }
  }

  /** The seven buckets, Sunday first: each weekday's label, the hours
      logged on that day and the number of sessions on it. */
  function WeeklyData(logs: seq<GraphLog>): (r: seq<DayBucket>)
    ensures |r| == 7
    ensures forall d: Weekday :: r[d] == DayBucket(WEEK_DAYS[d], HoursOn(logs, d), SessionsOn(logs, d))
  {
    seq(7, d requires 0 <= d < 7 => DayBucket(WEEK_DAYS[d], HoursOn(logs, d), SessionsOn(logs, d)))
  }

  function WeekSum(f: Weekday -> int): int
  {
    f(0) + f(1) + f(2) + f(3) + f(4) + f(5) + f(6)
  }

  /** Every log is one session of exactly one day: the sessions add up to
      the number of logs, and the hours to the hours of all logs. */
  lemma {:induction false} WeekTotals(logs: seq<GraphLog>)
    ensures WeekSum((d: Weekday) => SessionsOn(logs, d)) == |logs|
    ensures WeekSum((d: Weekday) => HoursOn(logs, d)) == SumBy(logs, LogHours)
    decreases |logs|
  {
    if logs != [] {
      var prefix, l := logs[..|logs| - 1], logs[|logs| - 1];
      assert logs == prefix + [l];
      WeekTotals(prefix);
      forall d: Weekday ensures
        SessionsOn(logs, d) == SessionsOn(prefix, d) + (if l.weekday == d then 1 else 0) &&
        HoursOn(logs, d) == HoursOn(prefix, d) + (if l.weekday == d then l.hours else 0)
      {
        OnDaySnoc(prefix, l, d);
      }
      SumByAppend(prefix, [l], LogHours);
      assert SumBy([l], LogHours) == l.hours by {
        assert [l][1..] == [];
      }
    }
  }

  /** Before any log all seven buckets are empty. */
  lemma NoLogsEmptyWeek(d: Weekday)
    ensures WeeklyData([])[d] == DayBucket(WEEK_DAYS[d], 0, 0)
  {
  }

  // ---------------------------------------------------------------------
  // processSubjectData

  datatype SubjectEntry = SubjectEntry(subject: string, hours: int, sessions: nat)

  function EntryHours(e: SubjectEntry): int { e.hours }

  /** `subjectMap` with the order in which its keys were created. */
  datatype SubjectMap = SubjectMap(order: seq<string>, entries: map<string, SubjectEntry>)

  ghost predicate WellFormed(g: SubjectMap)
  {
    && (forall s :: s in g.entries <==> s in g.order)
    && (forall i, j :: 0 <= i < j < |g.order| ==> g.order[i] != g.order[j])
    && (forall s :: s in g.entries ==> g.entries[s].subject == s)
  }

  /** Whether a log gets counted in `subjectMap`: as written (`dropInherited`),
      a subject naming an `Object.prototype` member finds that member, which
      is truthy, so `+=` lands on it and the log is lost; an own-keys-only
      map counts every log. */
  predicate Counted(l: GraphLog, dropInherited: bool)
  {
    !(dropInherited && l.subject in INHERITED)
  }

  /** One iteration of the `forEach`: add to the subject's entry, or create it. */
  function AddLog(g: SubjectMap, l: GraphLog, dropInherited: bool): (r: SubjectMap)
    requires WellFormed(g)
    ensures WellFormed(r)
  {
    if !Counted(l, dropInherited) then g
    else if l.subject in g.entries then
      var e := g.entries[l.subject];
      g.(entries := g.entries[l.subject := e.(hours := e.hours + l.hours, sessions := e.sessions + 1)])
    else
      SubjectMap(g.order + [l.subject], g.entries[l.subject := SubjectEntry(l.subject, l.hours, 1)])
  }

  /** `subjectMap` after the whole `forEach`. */
  function GroupSubjects(logs: seq<GraphLog>, dropInherited: bool): (g: SubjectMap)
    ensures WellFormed(g)
    decreases |logs|
  {
    if logs == [] then SubjectMap([], map[])
    else AddLog(GroupSubjects(logs[..|logs| - 1], dropInherited), logs[|logs| - 1], dropInherited)
  }

  /** `Object.values(subjectMap)` before the sort. */
  function Values(g: SubjectMap): (r: seq<SubjectEntry>)
    requires WellFormed(g)
    ensures |r| == |g.order|
    ensures forall i :: 0 <= i < |r| ==> r[i] == g.entries[g.order[i]]
  {
    seq(|g.order|, i requires 0 <= i < |g.order| => g.entries[g.order[i]])
  }

  predicate HasSubject(l: GraphLog, s: string) { l.subject == s }

  function SessionsOf(logs: seq<GraphLog>, s: string): nat
  {
    |Keep(logs, l => HasSubject(l, s))|
  }

  function HoursOf(logs: seq<GraphLog>, s: string): int
  {
    SumBy(Keep(logs, l => HasSubject(l, s)), LogHours)
  }

  predicate Logged(logs: seq<GraphLog>, s: string)
  {
    exists i | 0 <= i < |logs| :: logs[i].subject == s
  }

  lemma SubjectSnoc(logs: seq<GraphLog>, l: GraphLog, s: string)
    ensures SessionsOf(logs + [l], s) == SessionsOf(logs, s) + (if l.subject == s then 1 else 0)
    ensures HoursOf(logs + [l], s) == HoursOf(logs, s) + (if l.subject == s then l.hours else 0)
    ensures Logged(logs + [l], s) <==> Logged(logs, s) || l.subject == s
  {
    KeepAppend(logs, [l], x => HasSubject(x, s));
    assert [l][1..] == [];
    SumByAppend(Keep(logs, x => HasSubject(x, s)), Keep([l], x => HasSubject(x, s)), LogHours);
    if Logged(logs + [l], s) {
      var i :| 0 <= i < |logs + [l]| && (logs + [l])[i].subject == s;
      if i < |logs| {
        assert logs[i] == (logs + [l])[i];
      }
    }
    if Logged(logs, s) {
      var i :| 0 <= i < |logs| && logs[i].subject == s;
      assert (logs + [l])[i] == logs[i];
    }
    if l.subject == s {
      assert (logs + [l])[|logs|] == l;
    }
  }

  /** A subject is tracked unless inherited names are dropped and it is one. */
  predicate Tracked(s: string, dropInherited: bool)
  {
    !(dropInherited && s in INHERITED)
  }

  /** What the breakdown promises for subject `s` after `logs`. */
  ghost predicate EntryFor(g: SubjectMap, logs: seq<GraphLog>, dropInherited: bool, s: string)
  {
    && (s in g.entries <==> Logged(logs, s) && Tracked(s, dropInherited))
    && (s in g.entries ==> g.entries[s] == SubjectEntry(s, HoursOf(logs, s), SessionsOf(logs, s)))
  }

  lemma AddLogEntryFor(g: SubjectMap, prefix: seq<GraphLog>, l: GraphLog, dropInherited: bool, s: string)
    requires WellFormed(g)
    requires EntryFor(g, prefix, dropInherited, s)
    ensures EntryFor(AddLog(g, l, dropInherited), prefix + [l], dropInherited, s)
  {
    SubjectSnoc(prefix, l, s);
    var r := AddLog(g, l, dropInherited);
    if !Counted(l, dropInherited) {
      assert r == g;
    } else if l.subject in g.entries {
      var e := g.entries[l.subject];
      assert r.entries == g.entries[l.subject := e.(hours := e.hours + l.hours, sessions := e.sessions + 1)];
      if s == l.subject {
        assert r.entries[s] == SubjectEntry(s, HoursOf(prefix, s) + l.hours, SessionsOf(prefix, s) + 1);
      }
    } else {
      assert r.entries == g.entries[l.subject := SubjectEntry(l.subject, l.hours, 1)];
      if s == l.subject {
        assert !Logged(prefix, s);
        assert SessionsOf(prefix, s) == 0 && HoursOf(prefix, s) == 0 by {
          forall i | 0 <= i < |prefix| ensures !HasSubject(prefix[i], s) { }
          KeepNone(prefix, x => HasSubject(x, s));
        }
      }
    }
  }

  /** One entry per subject that occurs in the logs (and is not an inherited
      name, when those are dropped), counting that subject's sessions and
      summing its hours. */
  lemma {:induction false} SubjectTotals(logs: seq<GraphLog>, dropInherited: bool, s: string)
    ensures var g := GroupSubjects(logs, dropInherited);
      && (s in g.entries <==> Logged(logs, s) && Tracked(s, dropInherited))
      && (s in g.entries ==> g.entries[s] == SubjectEntry(s, HoursOf(logs, s), SessionsOf(logs, s)))
    decreases |logs|
  {
    if logs != [] {
      var prefix, l := logs[..|logs| - 1], logs[|logs| - 1];
      assert logs == prefix + [l];
      SubjectTotals(prefix, dropInherited, s);
      AddLogEntryFor(GroupSubjects(prefix, dropInherited), prefix, l, dropInherited, s);
    }
  }

  /** The subject breakdown has no two entries for one subject. */
  lemma SubjectsDistinct(logs: seq<GraphLog>, dropInherited: bool)
    ensures var v := Values(GroupSubjects(logs, dropInherited));
      forall i, j :: 0 <= i < j < |v| ==> v[i].subject != v[j].subject
  {
  }

  /** The grouping of a prefix one log longer. */
  lemma GroupSubjectsStep(logs: seq<GraphLog>, i: int, dropInherited: bool)
    requires 0 <= i < |logs|
    ensures GroupSubjects(logs[..i + 1], dropInherited) == AddLog(GroupSubjects(logs[..i], dropInherited), logs[i], dropInherited)
  {
    assert logs[..i + 1][..i] == logs[..i];
  }

  /** The `forEach` callback, as written: a subject the lookup finds (an
      inherited member included) takes the update, any other is created. */
  method CountLog(order: seq<string>, subjectMap: map<string, SubjectEntry>, log: GraphLog)
    returns (order': seq<string>, subjectMap': map<string, SubjectEntry>)
    requires WellFormed(SubjectMap(order, subjectMap))
    ensures SubjectMap(order', subjectMap') == AddLog(SubjectMap(order, subjectMap), log, true)
  {
    order', subjectMap' := order, subjectMap;
    if log.subject in INHERITED {
      // the lookup finds the inherited member; the update is made on it
    } else if log.subject in subjectMap {
      var e := subjectMap[log.subject];
      subjectMap' := subjectMap[log.subject := e.(hours := e.hours + log.hours, sessions := e.sessions + 1)];
    } else {
      subjectMap' := subjectMap[log.subject := SubjectEntry(log.subject, log.hours, 1)];
      order' := order + [log.subject];
    }
  }

  /** The `forEach` filling `subjectMap`: the insertion order of the keys is
      kept beside the map. */
  method FillSubjectMap(logs: seq<GraphLog>) returns (order: seq<string>, subjectMap: map<string, SubjectEntry>)
    ensures SubjectMap(order, subjectMap) == GroupSubjects(logs, true)
  {
    order, subjectMap := [], map[];
    var i := 0;
    while i < |logs|
      invariant 0 <= i <= |logs|
      invariant SubjectMap(order, subjectMap) == GroupSubjects(logs[..i], true)
    {
      GroupSubjectsStep(logs, i, true);
      order, subjectMap := CountLog(order, subjectMap, logs[i]);
      i := i + 1;
    }
    assert logs[..|logs|] == logs;
  }

  /** `processSubjectData`: the map, then `Object.values(...)` and the
      in-place sort by hours, most first. */
  method ProcessSubjectData(logs: seq<GraphLog>) returns (subjects: array<SubjectEntry>)
    ensures fresh(subjects)
    ensures subjects[..] == Sorting.SortDesc(Values(GroupSubjects(logs, true)), EntryHours)
    ensures Sorting.SortedDesc(subjects[..], EntryHours)
    ensures multiset(subjects[..]) == multiset(Values(GroupSubjects(logs, true)))
  {
    var order, subjectMap := FillSubjectMap(logs);
    var values := Values(SubjectMap(order, subjectMap));
    subjects := new SubjectEntry[|values|](k requires 0 <= k < |values| => values[k]);
    assert subjects[..] == values;
    Sorting.SortDescInPlace(subjects, EntryHours);
    Sorting.SortDescSorted(values, EntryHours);
    Sorting.SortDescPerm(values, EntryHours);
  }

  /** As written, a subject named "constructor" is missing from the
      breakdown; the own-keys-only map lists it. */
  lemma ConstructorSubjectDropped()
    ensures Values(GroupSubjects([GraphLog(1, "constructor", 10)], true)) == []
    ensures Values(GroupSubjects([GraphLog(1, "constructor", 10)], false)) == [SubjectEntry("constructor", 10, 1)]
  {
    var logs := [GraphLog(1, "constructor", 10)];
    assert logs[..0] == [];
    var g := GroupSubjects(logs, false);
    assert g.order == ["constructor"];
  }

  function EntrySessions(e: SubjectEntry): int { e.sessions }

  /** One counted log adds one session to the breakdown. */
  lemma AddLogSessions(g: SubjectMap, l: GraphLog, dropInherited: bool)
    requires WellFormed(g)
    ensures SumBy(Values(AddLog(g, l, dropInherited)), EntrySessions)
      == SumBy(Values(g), EntrySessions) + (if Counted(l, dropInherited) then 1 else 0)
  {
    var v, v2 := Values(g), Values(AddLog(g, l, dropInherited));
    if Counted(l, dropInherited) {
      if l.subject in g.entries {
        var k :| 0 <= k < |g.order| && g.order[k] == l.subject;
        var old_e := g.entries[l.subject];
        var e := old_e.(hours := old_e.hours + l.hours, sessions := old_e.sessions + 1);
        var g2 := AddLog(g, l, dropInherited);
        assert g2.order == g.order;
        assert g2.entries == g.entries[l.subject := old_e.(hours := old_e.hours + l.hours, sessions := old_e.sessions + 1)];
        assert v2 == v[k := e] by {
          forall i | 0 <= i < |v2| ensures v2[i] == v[k := e][i] {
            if i != k {
              assert g.order[i] != l.subject;
            }
          }
        }
        SumByUpdate(v, k, e, EntrySessions);
      } else {
        var e := SubjectEntry(l.subject, l.hours, 1);
        assert v2 == v + [e];
        SumByAppend(v, [e], EntrySessions);
        assert [e][1..] == [];
      }
    }
  }

  /** The sessions of the breakdown add up to the counted logs: all logs
      with own keys only, and as written all but those whose subject names
      an inherited member. */
  lemma {:induction false} SubjectSessionsTotal(logs: seq<GraphLog>, dropInherited: bool)
    ensures SumBy(Values(GroupSubjects(logs, dropInherited)), EntrySessions)
      == |Keep(logs, l => Counted(l, dropInherited))|
    decreases |logs|
  {
    if logs != [] {
      var prefix, l := logs[..|logs| - 1], logs[|logs| - 1];
      assert logs == prefix + [l];
      SubjectSessionsTotal(prefix, dropInherited);
      AddLogSessions(GroupSubjects(prefix, dropInherited), l, dropInherited);
      KeepAppend(prefix, [l], x => Counted(x, dropInherited));
      assert [l][1..] == [];
    }
  }

  /** With own keys only, no log is lost. */
  lemma CorrectedSessionsTotal(logs: seq<GraphLog>)
    ensures SumBy(Values(GroupSubjects(logs, false)), EntrySessions) == |logs|
  {
    SubjectSessionsTotal(logs, false);
    KeepAll(logs, l => Counted(l, false));
  }

  lemma SumByUpdate<T>(s: seq<T>, k: nat, x: T, f: T -> int)
    requires k < |s|
    ensures SumBy(s[k := x], f) == SumBy(s, f) - f(s[k]) + f(x)
  {
    assert s == s[..k] + [s[k]] + s[k + 1..];
    assert s[k := x] == s[..k] + [x] + s[k + 1..];
    SumByAppend(s[..k] + [s[k]], s[k + 1..], f);
    SumByAppend(s[..k], [s[k]], f);
    SumByAppend(s[..k] + [x], s[k + 1..], f);
    SumByAppend(s[..k], [x], f);
    assert [s[k]][1..] == [] && [x][1..] == [];
  }

  // ---------------------------------------------------------------------
  // the component

  /** `studyData`, with `studyLogs` `None` when missing. */
  datatype StudyData = StudyData(studyLogs: Option<seq<GraphLog>>)

  datatype View = Placeholder | Charts(weekly: seq<DayBucket>, subjects: seq<SubjectEntry>)

  /** `ActivityGraph({ studyData })`: the loading placeholder when there is
      no data or no log list, otherwise both breakdowns. */
  function Render(studyData: Option<StudyData>): (v: View)
    ensures v.Placeholder? <==> studyData.None? || studyData.value.studyLogs.None?
    ensures v.Charts? ==> v.weekly == WeeklyData(studyData.value.studyLogs.value)
    ensures v.Charts? ==> Sorting.SortedDesc(v.subjects, EntryHours)
    ensures v.Charts? ==> multiset(v.subjects) == multiset(Values(GroupSubjects(studyData.value.studyLogs.value, true)))
  {
    if studyData.None? || studyData.value.studyLogs.None? then Placeholder
    else
      var logs := studyData.value.studyLogs.value;
      var values := Values(GroupSubjects(logs, true));
      Sorting.SortDescSorted(values, EntryHours);
      Sorting.SortDescPerm(values, EntryHours);
      Charts(WeeklyData(logs), Sorting.SortDesc(values, EntryHours))
  }
}
