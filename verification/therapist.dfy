/** The physiotherapist's summary table: for each client, the number of
    assignments and the number of completions dated in the current week.
    Instants are milliseconds since 0000-01-01T00:00Z; the viewer's time zone
    is a fixed offset east of UTC. */
module Therapist {
  import opened Records
  import opened Calendar

  const MS_PER_DAY: int := 86400000

  /** The local calendar day of instant `t` (local time = UTC + `off`). */
  function LocalDayOf(t: int, off: int): (d: Day)
    ensures d * MS_PER_DAY <= t + off < d * MS_PER_DAY + MS_PER_DAY
  {
    (t + off) / MS_PER_DAY
  }

  /** The instant at which local day `d` begins. */
  function LocalMidnight(d: Day, off: int): (t: int)
    ensures LocalDayOf(t, off) == d
    ensures forall u :: t <= u < t + MS_PER_DAY ==> LocalDayOf(u, off) == d
  {
    d * MS_PER_DAY - off
  }

  /** `startOfWeek(new Date())`: the first instant of the local Sunday. */
  function WeekStartInstant(today: Day, off: int): (t: int)
    ensures LocalDayOf(t, off) == StartOfWeek(today)
  {
    LocalMidnight(StartOfWeek(today), off)
  }

  /** `endOfWeek(new Date())`: the last millisecond of the local Saturday. */
  function WeekEndInstant(today: Day, off: int): (t: int)
    ensures LocalDayOf(t, off) == EndOfWeek(today)
    ensures t - WeekStartInstant(today, off) == 7 * MS_PER_DAY - 1
  {
    LocalMidnight(EndOfWeek(today) + 1, off) - 1
  }

  /** Local days are monotone in the instant. */
  lemma LocalDayMonotone(t: int, u: int, off: int)
    requires t <= u
    ensures LocalDayOf(t, off) <= LocalDayOf(u, off)
  {
  }

  /** At or east of UTC, midnight UTC of a day is on that local day. */
  lemma UtcMidnightEast(d: Day, off: int)
    requires 0 <= off < MS_PER_DAY
    ensures LocalDayOf(d * MS_PER_DAY, off) == d
  {
    assert LocalMidnight(d, off) <= d * MS_PER_DAY < LocalMidnight(d, off) + MS_PER_DAY;
  }

  /** West of UTC, midnight UTC of a day is on the local day before. */
  lemma UtcMidnightWest(d: Day, off: int)
    requires -MS_PER_DAY < off < 0
    ensures LocalDayOf(d * MS_PER_DAY, off) == d - 1
  {
    assert LocalMidnight(d - 1, off) <= d * MS_PER_DAY < LocalMidnight(d - 1, off) + MS_PER_DAY;
  }

  /** An instant lies between the week's two bounds exactly when its local
      day lies between the week's Sunday and Saturday. */
  lemma InstantInWeek(t: int, today: Day, off: int)
    ensures WeekStartInstant(today, off) <= t <= WeekEndInstant(today, off)
            <==> StartOfWeek(today) <= LocalDayOf(t, off) <= EndOfWeek(today)
  {
    var lo, hi := WeekStartInstant(today, off), WeekEndInstant(today, off);
    if t < lo {
      LocalDayMonotone(t, lo - 1, off);
      assert LocalDayOf(lo - 1, off) < StartOfWeek(today);
    } else if t > hi {
      LocalDayMonotone(hi + 1, t, off);
      assert LocalDayOf(hi + 1, off) == EndOfWeek(today) + 1;
    } else {
      LocalDayMonotone(lo, t, off);
      LocalDayMonotone(t, hi, off);
    }
  }

  // ---------------------------------------------------------------------
  // The week's count as written
  // ---------------------------------------------------------------------

  /** `new Date(s)`: a valid date-only key is midnight UTC of its day; any
      other string goes to the engine's own parser `other` (None for an
      Invalid Date). */
  function DateInstant(s: string, other: string -> Option<int>): (t: Option<int>)
    ensures ParseKey(s).Some? ==> t == Some(ParseKey(s).value * MS_PER_DAY)
    ensures ParseKey(s).None? ==> t == other(s)
  {
    match ParseKey(s)
    case Some(d) => Some(d * MS_PER_DAY)
    case None => other(s)
  }

  /** `new Date(c['Completion Date'])`; without the field it is
      `new Date(undefined)`, an Invalid Date. */
  function CompletionInstant(c: Record, other: string -> Option<int>): (t: Option<int>)
    ensures TextField(c, COMPLETION_DATE).None? ==> t.None?
  {
    match TextField(c, COMPLETION_DATE)
    case None => None
    case Some(s) => DateInstant(s, other)
  }

  /** `d >= weekStart && d <= weekEnd`; an Invalid Date compares false. */
  predicate CountedAsWritten(c: Record, today: Day, off: int, other: string -> Option<int>) {
    var t := CompletionInstant(c, other);
    t.Some? && WeekStartInstant(today, off) <= t.value <= WeekEndInstant(today, off)
  }

  function IsCountedAsWritten(today: Day, off: int, other: string -> Option<int>): Record -> bool {
    c => CountedAsWritten(c, today, off, other)
  }

  /** `comp.filter(...).length` as written. */
  function CompletedThisWeekAsWritten(comps: seq<Record>, today: Day, off: int, other: string -> Option<int>)
    : (n: nat)
    ensures n <= |comps|
  {
    Count(comps, IsCountedAsWritten(today, off, other))
  }

  // ---------------------------------------------------------------------
  // The week's count with dates read as local days
  // ---------------------------------------------------------------------

  /** The local day a completion is dated: a date-only key names its day
      directly, as parseISO reads it; anything else is the engine's instant
      seen in local time. */
  function IntendedDay(c: Record, off: int, other: string -> Option<int>): (d: Option<Day>)
    ensures TextField(c, COMPLETION_DATE).None? ==> d.None?
    ensures TextField(c, COMPLETION_DATE).Some? && ParseKey(TextField(c, COMPLETION_DATE).value).Some? ==>
              d == ParseKey(TextField(c, COMPLETION_DATE).value)
  {
    match TextField(c, COMPLETION_DATE)
    case None => None
    case Some(s) =>
      match ParseKey(s)
      case Some(day) => Some(day)
      case None =>
        match other(s)
        case None => None
        case Some(t) => Some(LocalDayOf(t, off))
  }

  predicate Counted(c: Record, today: Day, off: int, other: string -> Option<int>) {
    var d := IntendedDay(c, off, other);
    d.Some? && StartOfWeek(today) <= d.value <= EndOfWeek(today)
  }

  function IsCounted(today: Day, off: int, other: string -> Option<int>): Record -> bool {
    c => Counted(c, today, off, other)
  }

  /** The number of completions dated Sunday to Saturday of today's week. */
  function CompletedThisWeek(comps: seq<Record>, today: Day, off: int, other: string -> Option<int>): (n: nat)
    ensures n <= |comps|
  {
    Count(comps, IsCounted(today, off, other))
  }

  /** A completion dated with a key counts exactly when its day is in the week. */
  lemma KeyedCompletionCounted(c: Record, d: Day, today: Day, off: int, other: string -> Option<int>)
    requires InRange(d) && TextField(c, COMPLETION_DATE) == Some(Format(d))
    ensures CompletedThisWeek([c], today, off, other) == 1 <==> StartOfWeek(today) <= d <= EndOfWeek(today)
    ensures CompletedThisWeek([c], today, off, other) == 0 <==> !(StartOfWeek(today) <= d <= EndOfWeek(today))
  {
    ParseFormat(d);
    assert [c][1..] == [];
  }

  /** Every completion record counts on its own: a second record of the same
      assignment on the same day adds one more. */
  lemma CountsRecords(comps: seq<Record>, c: Record, today: Day, off: int, other: string -> Option<int>)
    ensures CompletedThisWeek(comps + [c], today, off, other)
            == CompletedThisWeek(comps, today, off, other) + (if Counted(c, today, off, other) then 1 else 0)
  {
    CountAppend(comps, [c], IsCounted(today, off, other));
    assert [c][1..] == [];
  }

  /** Both readings agree on a single record when the zone is at or east of
      UTC: midnight UTC of a key's day is then on that local day. */
  lemma ReadingsAgreeEast(c: Record, today: Day, off: int, other: string -> Option<int>)
    requires 0 <= off < MS_PER_DAY
    ensures CountedAsWritten(c, today, off, other) == Counted(c, today, off, other)
  {
    match TextField(c, COMPLETION_DATE)
    case None =>
    case Some(s) =>
      match ParseKey(s)
      case Some(d) =>
        UtcMidnightEast(d, off);
        InstantInWeek(d * MS_PER_DAY, today, off);
      case None =>
        match other(s)
        case None =>
        case Some(t) => InstantInWeek(t, today, off);
  }

  /** Counts with equal predicates on every element agree. */
  lemma CountSame<T>(xs: seq<T>, f: T -> bool, g: T -> bool)
    requires forall x :: x in xs ==> f(x) == g(x)
    ensures Count(xs, f) == Count(xs, g)
  {
    CountMonotone(xs, f, g);
    CountMonotone(xs, g, f);
  }

  /** At or east of UTC the code as written gives the intended count. */
  lemma AsWrittenAgreesEast(comps: seq<Record>, today: Day, off: int, other: string -> Option<int>)
    requires 0 <= off < MS_PER_DAY
    ensures CompletedThisWeekAsWritten(comps, today, off, other) == CompletedThisWeek(comps, today, off, other)
  {
    forall c | c in comps
      ensures IsCountedAsWritten(today, off, other)(c) == IsCounted(today, off, other)(c)
    {
      ReadingsAgreeEast(c, today, off, other);
    }
    CountSame(comps, IsCountedAsWritten(today, off, other), IsCounted(today, off, other));
  }

  /** A completion dated with the key of day `d` is read as midnight UTC of
      `d` by the code as written and as day `d` by the intended reading. */
  lemma KeyedReadings(c: Record, d: Day, off: int, other: string -> Option<int>)
    requires InRange(d) && TextField(c, COMPLETION_DATE) == Some(Format(d))
    ensures CompletionInstant(c, other) == Some(d * MS_PER_DAY)
    ensures IntendedDay(c, off, other) == Some(d)
  {
    ParseFormat(d);
  }

  /** West of UTC, as written, a completion dated on the week's Sunday is
      read as Saturday evening of the week before and is not counted. */
  lemma WestMissesSunday(c: Record, today: Day, off: int, other: string -> Option<int>)
    requires -MS_PER_DAY < off < 0
    requires InRange(StartOfWeek(today)) && TextField(c, COMPLETION_DATE) == Some(Format(StartOfWeek(today)))
    ensures !CountedAsWritten(c, today, off, other)
    ensures Counted(c, today, off, other)
  {
    var d := StartOfWeek(today);
    KeyedReadings(c, d, off, other);
    UtcMidnightWest(d, off);
    InstantInWeek(d * MS_PER_DAY, today, off);
  }

  /** West of UTC, as written, a completion dated on the next week's Sunday
      is read as this Saturday evening and is counted. */
  lemma WestCountsNextSunday(c: Record, today: Day, off: int, other: string -> Option<int>)
    requires -MS_PER_DAY < off < 0
    requires InRange(EndOfWeek(today) + 1) && TextField(c, COMPLETION_DATE) == Some(Format(EndOfWeek(today) + 1))
    ensures CountedAsWritten(c, today, off, other)
    ensures !Counted(c, today, off, other)
  {
    var d := EndOfWeek(today) + 1;
    KeyedReadings(c, d, off, other);
    UtcMidnightWest(d, off);
    InstantInWeek(d * MS_PER_DAY, today, off);
  }

  // ---------------------------------------------------------------------
  // The summary table
  // ---------------------------------------------------------------------

  /** What the page loads for one client: the name, the assignment list and
      the completion list. */
  datatype ClientData = ClientData(name: string, assignments: seq<Record>, completions: seq<Record>)

  datatype StatRow = StatRow(name: string, assignedCount: nat, completedThisWeek: nat)

  /** One row per client, in the order of the client list, with the week's
      count as the page computes it; at or east of UTC that is also the
      intended count. */
  function Stats(clients: seq<ClientData>, today: Day, off: int, other: string -> Option<int>)
    : (rows: seq<StatRow>)
    ensures |rows| == |clients|
    ensures forall i :: 0 <= i < |rows| ==>
              rows[i].name == clients[i].name && rows[i].assignedCount == |clients[i].assignments|
    ensures forall i :: 0 <= i < |rows| ==>
              rows[i].completedThisWeek == CompletedThisWeekAsWritten(clients[i].completions, today, off, other)
    ensures forall i :: 0 <= i < |rows| ==> rows[i].completedThisWeek <= |clients[i].completions|
    ensures 0 <= off < MS_PER_DAY ==> forall i :: 0 <= i < |rows| ==>
              rows[i].completedThisWeek == CompletedThisWeek(clients[i].completions, today, off, other)
  {
    var rows := seq(|clients|, i requires 0 <= i < |clients| =>
      StatRow(clients[i].name, |clients[i].assignments|,
              CompletedThisWeekAsWritten(clients[i].completions, today, off, other)));
    if 0 <= off < MS_PER_DAY then ClientsAgreeEast(clients, today, off, other); rows else rows
  }

  lemma ClientsAgreeEast(clients: seq<ClientData>, today: Day, off: int, other: string -> Option<int>)
    requires 0 <= off < MS_PER_DAY
    ensures forall i :: 0 <= i < |clients| ==>
              CompletedThisWeek(clients[i].completions, today, off, other)
              == CompletedThisWeekAsWritten(clients[i].completions, today, off, other)
  {
    forall i | 0 <= i < |clients|
      ensures CompletedThisWeek(clients[i].completions, today, off, other)
              == CompletedThisWeekAsWritten(clients[i].completions, today, off, other)
    {
      AsWrittenAgreesEast(clients[i].completions, today, off, other);
    }
  }

  /** A client's row depends on that client's data alone. */
  lemma StatsRowLocal(clients: seq<ClientData>, i: nat, cd: ClientData, today: Day, off: int,
                      other: string -> Option<int>)
    requires i < |clients|
    ensures forall j :: 0 <= j < |clients| && j != i ==>
              Stats(clients[i := cd], today, off, other)[j] == Stats(clients, today, off, other)[j]
  {
  }
}
