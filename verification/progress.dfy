/** The client's progress page: the day-streak, the seven weekly buckets of
    the bar chart, the daily-goal line and the streak colour. */
module Progress {
  import opened Records
  import opened Calendar

  /** parseDateSafe: no date for a missing or empty value; otherwise
      parseISO when it yields a valid date, else the Date constructor. */
  function ParseDateSafe(s: Option<string>, p: Parsers): (r: Option<Day>)
    ensures s.None? || s.value == "" ==> r.None?
    ensures s.Some? && s.value != "" && p.iso(s.value).Some? ==> r == p.iso(s.value)
    ensures s.Some? && s.value != "" && p.iso(s.value).None? ==> r == p.loose(s.value)
  {
    if s.None? || s.value == "" then None
    else if p.iso(s.value).Some? then p.iso(s.value)
    else p.loose(s.value)
  }

  /** The parsed day of a completion's `Completion Date`. */
  function CompletionDay(c: Record, p: Parsers): Option<Day> {
    ParseDateSafe(TextField(c, COMPLETION_DATE), p)
  }

  // ---------------------------------------------------------------------
  // Streak
  // ---------------------------------------------------------------------

  /** The walk backwards from today stops after this many days. */
  const STREAK_CAP: nat := 365

  /** The distinct completion days on or before today; unparseable dates
      drop out. (The source compares the `yyyy-MM-dd` keys as strings;
      Calendar.FormatOrder shows that is the same as comparing days.) */
  function StreakDays(comps: seq<Record>, today: Day, p: Parsers): (days: set<Day>)
    ensures forall d :: d in days ==> d <= today
    ensures forall c :: c in comps && CompletionDay(c, p).Some? && CompletionDay(c, p).value <= today
                        ==> CompletionDay(c, p).value in days
    ensures forall d :: d in days ==> exists c :: c in comps && CompletionDay(c, p) == Some(d)
  {
    set c | c in comps && CompletionDay(c, p).Some? && CompletionDay(c, p).value <= today
      :: CompletionDay(c, p).value
  }

  /** Length of the run of consecutive days in `days` ending at `cur`,
      walking back at most `fuel` days. */
  function RunLength(days: set<Day>, cur: Day, fuel: nat): (n: nat)
    ensures n <= fuel
    ensures forall d :: cur - n < d <= cur ==> d in days
    ensures n < fuel ==> cur - n !in days
    decreases fuel
  {
    if fuel == 0 || cur !in days then 0 else 1 + RunLength(days, cur - 1, fuel - 1)
  }

  /** calcStreak: 0 for a missing or empty list; otherwise the number of
      consecutive days, counting back from today, that have a completion,
      capped at 365. */
  function Streak(comps: Option<seq<Record>>, today: Day, p: Parsers): (n: nat)
    ensures n <= STREAK_CAP
    ensures comps.None? || |comps.value| == 0 ==> n == 0
    ensures comps.Some? && n > 0 ==> forall d :: today - n < d <= today ==> d in StreakDays(comps.value, today, p)
    ensures comps.Some? && |comps.value| > 0 && n < STREAK_CAP ==>
              today - n !in StreakDays(comps.value, today, p)
    ensures comps.Some? && today !in StreakDays(comps.value, today, p) ==> n == 0
  {
    match comps
    case None => 0
    case Some(cs) => if |cs| == 0 then 0 else RunFromToday(StreakDays(cs, today, p), today)
  }

  /** The capped run of completion days ending today. */
  function RunFromToday(days: set<Day>, today: Day): (n: nat)
    ensures n <= STREAK_CAP
    ensures forall d :: today - n < d <= today ==> d in days
    ensures n < STREAK_CAP ==> today - n !in days
    ensures today !in days ==> n == 0
  {
    var n := RunLength(days, today, STREAK_CAP);
    assert n > 0 ==> today - 0 in days;
    n
  }

  /** The loop of calcStreak, run over the day set. */
  method CalcStreak(comps: Option<seq<Record>>, today: Day, p: Parsers) returns (n: nat)
    ensures n == Streak(comps, today, p)
    ensures n <= STREAK_CAP
  {
    if comps.None? || |comps.value| == 0 {
      return 0;
    }
    var days := StreakDays(comps.value, today, p);
    var cur := today;
    n := 0;
    var i := 0;
    while i < STREAK_CAP
      invariant 0 <= i <= STREAK_CAP && n == i && cur == today - n
      invariant RunLength(days, today, STREAK_CAP) == n + RunLength(days, cur, STREAK_CAP - i)
    {
      if cur in days {
        n := n + 1;
        cur := cur - 1;
      } else {
        break;
      }
      i := i + 1;
    }
  }

  /** The run length is the only count with the streak's properties: any
      n that is covered by completions and stops at a missing day (or the
      cap) is the streak. */
  lemma StreakCharacterized(days: set<Day>, today: Day, n: nat)
    requires n <= STREAK_CAP
    requires forall d :: today - n < d <= today ==> d in days
    requires n < STREAK_CAP ==> today - n !in days
    ensures RunLength(days, today, STREAK_CAP) == n
  {
  }

  /** More completion days never shorten a run. */
  lemma {:induction false} RunLengthMonotone(days: set<Day>, more: set<Day>, cur: Day, fuel: nat)
    requires days <= more
    ensures RunLength(days, cur, fuel) <= RunLength(more, cur, fuel)
    decreases fuel
  {
    if fuel > 0 && cur in days {
      RunLengthMonotone(days, more, cur - 1, fuel - 1);
    }
  }

  /** A completion whose date does not parse, lies after today, or falls on
      a day that already has one leaves the streak unchanged: only distinct
      past days count. */
  lemma StreakIgnoresRedundant(comps: seq<Record>, c: Record, today: Day, p: Parsers)
    requires CompletionDay(c, p).None? || CompletionDay(c, p).value > today
             || CompletionDay(c, p).value in StreakDays(comps, today, p)
    ensures Streak(Some(comps + [c]), today, p) == Streak(Some(comps), today, p)
  {
    var before, after := StreakDays(comps, today, p), StreakDays(comps + [c], today, p);
    forall d | d in after
      ensures d in before
    {
      var c' :| c' in comps + [c] && CompletionDay(c', p) == Some(d);
      if c' !in comps {
        assert c' == c;
      }
    }
    assert after == before;
  }

  /** Completions today, yesterday and the day before, and no other days
      up to today, make a streak of three. */
  lemma StreakOfThree(comps: seq<Record>, today: Day, p: Parsers)
    requires StreakDays(comps, today, p) == {today, today - 1, today - 2}
    ensures Streak(Some(comps), today, p) == 3
  {
    assert |comps| > 0 by {
      assert today in StreakDays(comps, today, p);
    }
    StreakCharacterized(StreakDays(comps, today, p), today, 3);
  }

  /** A completion dated today, added to a list without one, starts a streak. */
  lemma CompletionTodayStartsStreak(comps: seq<Record>, c: Record, today: Day, p: Parsers)
    requires CompletionDay(c, p) == Some(today)
    ensures Streak(Some(comps + [c]), today, p) >= 1
  {
    assert c in comps + [c];
    assert today in StreakDays(comps + [c], today, p);
  }

  // ---------------------------------------------------------------------
  // Weekly buckets
  // ---------------------------------------------------------------------

  /** One bar of the chart: its day and the number of completions on it.
      The three display labels are derived from the day and left out. */
  datatype Bucket = Bucket(day: Day, completed: nat)

  predicate OnDay(c: Record, d: Day, p: Parsers) {
    CompletionDay(c, p) == Some(d)
  }

  predicate Within(c: Record, lo: Day, hi: Day, p: Parsers) {
    CompletionDay(c, p).Some? && lo <= CompletionDay(c, p).value <= hi
  }

  function IsOnDay(d: Day, p: Parsers): Record -> bool {
    c => OnDay(c, d, p)
  }

  function IsWithin(lo: Day, hi: Day, p: Parsers): Record -> bool {
    c => Within(c, lo, hi, p)
  }

  /** The completions of one day: `comps?.filter(...).length ?? 0`. */
  function CompletedOn(comps: Option<seq<Record>>, d: Day, p: Parsers): nat {
    if comps.None? then 0 else Count(comps.value, IsOnDay(d, p))
  }

  /** Appending a completion adds one to its own day's bucket only. */
  lemma CompletedOnAppend(comps: seq<Record>, c: Record, d: Day, p: Parsers)
    ensures CompletedOn(Some(comps + [c]), d, p) == CompletedOn(Some(comps), d, p) + (if OnDay(c, d, p) then 1 else 0)
  {
    CountAppend(comps, [c], IsOnDay(d, p));
    assert [c][1..] == [];
  }

  /** The completions whose day lies in [lo, hi]. */
  function CompletedWithin(comps: Option<seq<Record>>, lo: Day, hi: Day, p: Parsers): (n: nat)
    ensures comps.Some? ==> n <= |comps.value|
    ensures comps.None? ==> n == 0
  {
    if comps.None? then 0 else Count(comps.value, IsWithin(lo, hi, p))
  }

  /** Widening the range by one day adds that day's completions. */
  lemma {:induction false} WithinStep(comps: Option<seq<Record>>, lo: Day, hi: Day, p: Parsers)
    requires lo <= hi + 1
    ensures CompletedWithin(comps, lo, hi + 1, p) == CompletedWithin(comps, lo, hi, p) + CompletedOn(comps, hi + 1, p)
    decreases if comps.None? then 0 else |comps.value|
  {
    if comps.Some? && |comps.value| > 0 {
      WithinStep(Some(comps.value[1..]), lo, hi, p);
    }
  }

  function SumCompleted(week: seq<Bucket>): nat
    decreases |week|
  {
    if |week| == 0 then 0 else SumCompleted(week[..|week| - 1]) + week[|week| - 1].completed
  }

  lemma SumAppend(week: seq<Bucket>, b: Bucket)
    ensures SumCompleted(week + [b]) == SumCompleted(week) + b.completed
  {
    assert (week + [b])[..|week|] == week;
  }

  /** makeWeek: one bucket per day from `ws` to the end of its week. */
  method MakeWeek(ws: Day, comps: Option<seq<Record>>, p: Parsers) returns (week: seq<Bucket>)
    ensures |week| == EndOfWeek(ws) - ws + 1
    ensures Weekday(ws) == 0 ==> |week| == 7
    ensures forall i :: 0 <= i < |week| ==> week[i].day == ws + i
    ensures forall i :: 0 <= i < |week| ==> week[i].completed == CompletedOn(comps, ws + i, p)
    ensures comps.None? || |comps.value| == 0 ==> forall i :: 0 <= i < |week| ==> week[i].completed == 0
    ensures SumCompleted(week) == CompletedWithin(comps, ws, EndOfWeek(ws), p)
    ensures comps.Some? ==> SumCompleted(week) <= |comps.value|
  {
    var we := EndOfWeek(ws);
    week := [];
    var d := ws;
    if comps.Some? {
      CountZero(comps.value, IsWithin(ws, ws - 1, p));
    }
    while d <= we
      invariant ws <= d <= we + 1
      invariant |week| == d - ws
      invariant forall i :: 0 <= i < |week| ==> week[i].day == ws + i
      invariant forall i :: 0 <= i < |week| ==> week[i].completed == CompletedOn(comps, ws + i, p)
      invariant SumCompleted(week) == CompletedWithin(comps, ws, d - 1, p)
      decreases we - d
    {
      var completed := CompletedOn(comps, d, p);
      WithinStep(comps, ws, d - 1, p);
      SumAppend(week, Bucket(d, completed));
      week := week + [Bucket(d, completed)];
      d := d + 1;
    }
  }

  // ---------------------------------------------------------------------
  // Daily goal and streak colour
  // ---------------------------------------------------------------------

  /** `assigns?.length || 0`. */
  function AssignedCount(assigns: Option<seq<Record>>): (n: nat)
    ensures assigns.Some? ==> n == |assigns.value|
    ensures assigns.None? ==> n == 0
  {
    if assigns.None? then 0 else |assigns.value|
  }

  /** The goal line's height: the number of assignments, or none at all. */
  function DailyGoal(assigns: Option<seq<Record>>): (g: Option<nat>)
    ensures g.None? <==> assigns.None? || |assigns.value| == 0
    ensures g.Some? ==> g.value == |assigns.value| && g.value > 0
  {
    var n := AssignedCount(assigns);
    if n > 0 then Some(n) else None
  }

  /** The chart draws the goal line only for a positive numeric goal. */
  predicate GoalLineDrawn(goal: Option<nat>) {
    goal.Some? && goal.value > 0
  }

  lemma GoalLineIffAssigned(assigns: Option<seq<Record>>)
    ensures GoalLineDrawn(DailyGoal(assigns)) <==> assigns.Some? && |assigns.value| > 0
  {
  }

  datatype Tone = Success | Warn | Muted

  function ToneRank(t: Tone): nat {
    match t
    case Muted => 0
    case Warn => 1
    case Success => 2
  }

  /** The streak number's colour: success from a week on, warn from three days. */
  function StreakColor(streak: int): (t: Tone)
    ensures t == Success <==> streak >= 7
    ensures t == Warn <==> 3 <= streak < 7
    ensures t == Muted <==> streak < 3
  {
    if streak >= 7 then Success else if streak >= 3 then Warn else Muted
  }

  /** A longer streak never gets a lesser colour. */
  lemma StreakColorMonotone(a: int, b: int)
    requires a <= b
    ensures ToneRank(StreakColor(a)) <= ToneRank(StreakColor(b))
  {
  }
}
