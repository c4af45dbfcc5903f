/** The pure parts of the record-store helpers: the date-only normaliser
    used before writes, the `Completion Date` rewrite in `create`/`update`,
    and the filter formula that selects a client's completions. The store
    calls themselves are parameters or left out. */
module Airtable {
  import opened Records
  import opened Calendar

  /** What `formatDateForAirtable` yields: null, a date-only string, the
      RangeError that `toISOString` throws on an Invalid Date, or an instant
      whose UTC year lies outside 0000-9999. */
  datatype DateOutcome =
    | NullDate
    | DateOnly(key: string)
    | InvalidTime
    | OutOfKeyRange(utcDay: Day)

  /** The UTC calendar day of `new Date(v)`; a Date object keeps its instant,
      anything else goes through the opaque constructor. */
  function UtcDayOf(v: Value, construct: Value -> Option<Day>): Option<Day> {
    match v
    case DateObject(d) => d
    case _ => construct(v)
  }

  /** formatDateForAirtable: falsy input gives null; a string already of the
      `yyyy-MM-dd` shape passes through; anything else is turned into a Date
      and cut to the date part of its ISO (UTC) rendering. */
  function FormatDateForAirtable(date: Option<Value>, construct: Value -> Option<Day>): (r: DateOutcome)
    ensures r.NullDate? <==> date.None? || !Truthy(date.value)
    ensures date.Some? && date.value.Text? && IsDateShape(date.value.s) ==> r == DateOnly(date.value.s)
    ensures r.DateOnly? ==> IsDateShape(r.key)
    ensures r.DateOnly? && !(date.value.Text? && IsDateShape(date.value.s)) ==>
              UtcDayOf(date.value, construct).Some?
              && InRange(UtcDayOf(date.value, construct).value)
              && r.key == Format(UtcDayOf(date.value, construct).value)
    ensures r.InvalidTime? ==> date.Some? && UtcDayOf(date.value, construct).None?
    ensures date.Some? && Truthy(date.value) && !(date.value.Text? && IsDateShape(date.value.s)) ==>
              (r.InvalidTime? <==> UtcDayOf(date.value, construct).None?)
    ensures r.OutOfKeyRange? ==> date.Some? && UtcDayOf(date.value, construct) == Some(r.utcDay) && !InRange(r.utcDay)
  {
    if date.None? || !Truthy(date.value) then NullDate
    else if date.value.Text? && IsDateShape(date.value.s) then DateOnly(date.value.s)
    else
      match UtcDayOf(date.value, construct)
      case None => InvalidTime
      case Some(d) => if InRange(d) then DateOnly(Format(d)) else OutOfKeyRange(d)
  }

  /** Normalising an already-normalised date changes nothing. */
  lemma FormatDateIdempotent(date: Option<Value>, construct: Value -> Option<Day>, construct': Value -> Option<Day>)
    requires FormatDateForAirtable(date, construct).DateOnly?
    ensures FormatDateForAirtable(Some(Text(FormatDateForAirtable(date, construct).key)), construct')
            == FormatDateForAirtable(date, construct)
  {
  }

  /** The rewrite `create` and `update` apply to a completion's fields before
      the store call: a present, truthy `name` field is replaced by its
      date-only form; every other field, and a falsy or absent one, is kept.
      `toISOString` throws on an Invalid Date; a day outside 0000-9999 is
      also a failure here, where the source would write an expanded year. */
  function NormalizeDateField(fields: map<string, Value>, name: string, construct: Value -> Option<Day>)
    : (r: Result<map<string, Value>>)
    ensures !(name in fields && Truthy(fields[name])) ==> r == Ok(fields)
    ensures r.Ok? ==> r.value.Keys == fields.Keys
    ensures r.Ok? ==> forall k :: k in fields && k != name ==> r.value[k] == fields[k]
    ensures r.Ok? && name in fields && Truthy(fields[name]) ==>
              r.value[name].Text? && IsDateShape(r.value[name].s)
    ensures r.Ok? && name in fields && Truthy(fields[name]) ==>
              FormatDateForAirtable(Some(fields[name]), construct).DateOnly?
              && r.value[name] == Text(FormatDateForAirtable(Some(fields[name]), construct).key)
    ensures r.Failure? <==> name in fields && Truthy(fields[name])
                            && !FormatDateForAirtable(Some(fields[name]), construct).DateOnly?
  {
    if name in fields && Truthy(fields[name]) then
      var out := FormatDateForAirtable(Some(fields[name]), construct);
      if out.DateOnly? then Ok(fields[name := Text(out.key)])
      else if out.InvalidTime? then Failure("RangeError: Invalid time value")
      else Failure("date outside years 0000-9999")
    else Ok(fields)
  }

  /** The fields `exerciseCompletions.create` and `update` send. */
  function CompletionWriteFields(fields: map<string, Value>, construct: Value -> Option<Day>)
    : (r: Result<map<string, Value>>)
    ensures r.Ok? ==> r.value.Keys == fields.Keys
    ensures r.Ok? ==> forall k :: k in fields && k != COMPLETION_DATE ==> r.value[k] == fields[k]
    ensures r.Ok? && COMPLETION_DATE in fields && Truthy(fields[COMPLETION_DATE]) ==>
              r.value[COMPLETION_DATE].Text? && IsDateShape(r.value[COMPLETION_DATE].s)
    ensures r.Ok? && COMPLETION_DATE in fields && Truthy(fields[COMPLETION_DATE]) ==>
              FormatDateForAirtable(Some(fields[COMPLETION_DATE]), construct).DateOnly?
              && r.value[COMPLETION_DATE] == Text(FormatDateForAirtable(Some(fields[COMPLETION_DATE]), construct).key)
    ensures COMPLETION_DATE !in fields ==> r == Ok(fields)
    ensures COMPLETION_DATE in fields && !Truthy(fields[COMPLETION_DATE]) ==> r == Ok(fields)
    ensures r.Failure? <==> COMPLETION_DATE in fields && Truthy(fields[COMPLETION_DATE])
                            && !FormatDateForAirtable(Some(fields[COMPLETION_DATE]), construct).DateOnly?
  {
    NormalizeDateField(fields, COMPLETION_DATE, construct)
  }

  /** A `Completion Date` that is already a date-only string is written as is. */
  lemma ShapedDateWrittenAsIs(fields: map<string, Value>, construct: Value -> Option<Day>)
    requires COMPLETION_DATE in fields && fields[COMPLETION_DATE].Text?
    requires IsDateShape(fields[COMPLETION_DATE].s)
    ensures CompletionWriteFields(fields, construct) == Ok(fields)
  {
    assert fields == fields[COMPLETION_DATE := fields[COMPLETION_DATE]];
  }

  /** Writing twice normalises once: the second rewrite is the identity. */
  lemma CompletionWriteIdempotent(fields: map<string, Value>, construct: Value -> Option<Day>, construct': Value -> Option<Day>)
    requires CompletionWriteFields(fields, construct).Ok?
    ensures CompletionWriteFields(CompletionWriteFields(fields, construct).value, construct')
            == CompletionWriteFields(fields, construct)
  {
    var once := CompletionWriteFields(fields, construct).value;
    if COMPLETION_DATE in fields && Truthy(fields[COMPLETION_DATE]) {
      ShapedDateWrittenAsIs(once, construct');
    } else {
      assert once == fields;
    }
  }

  // ---------------------------------------------------------------------
  // The completion filter formula
  // ---------------------------------------------------------------------

  const CLAUSE_PREFIX := "{Assignment} = '"

  /** One clause, the id interpolated verbatim. */
  function Clause(id: string): string {
    CLAUSE_PREFIX + id + "'"
  }

  function Clauses(ids: seq<string>): (cs: seq<string>)
    ensures |cs| == |ids|
    ensures forall i :: 0 <= i < |ids| ==> cs[i] == Clause(ids[i])
  {
    seq(|ids|, i requires 0 <= i < |ids| => Clause(ids[i]))
  }

  /** `Array.prototype.join` with a one-character separator. */
  function Join(parts: seq<string>, sep: char): string
    decreases |parts|
  {
    if |parts| == 0 then ""
    else if |parts| == 1 then parts[0]
    else parts[0] + [sep] + Join(parts[1..], sep)
  }

  /** `String.prototype.split` on a one-character separator. */
  function Split(s: string, sep: char): (parts: seq<string>)
    ensures |parts| >= 1
    decreases |s|
  {
    if |s| == 0 then [""]
    else
      var rest := Split(s[1..], sep);
      if s[0] == sep then [""] + rest
      else [[s[0]] + rest[0]] + rest[1..]
  }

  /** The filter for a client's completions: none for no assignments (the
      caller returns an empty list without querying), the bare clause for
      one, and an OR over all clauses in assignment order otherwise. */
  function CompletionFilter(ids: seq<string>): (f: Option<string>)
    ensures f.None? <==> |ids| == 0
    ensures |ids| == 1 ==> f == Some(Clause(ids[0]))
    ensures |ids| >= 2 ==> f.Some? && |f.value| >= 4 && f.value[..3] == "OR(" && f.value[|f.value| - 1] == ')'
  {
    if |ids| == 0 then None
    else if |ids| == 1 then Some(Clause(ids[0]))
    else Some("OR(" + Join(Clauses(ids), ',') + ")")
  }

  /** The id inside one clause, if the string is a clause. */
  function ClauseId(c: string): (id: Option<string>)
    ensures id.Some? ==> c == Clause(id.value)
  {
    if |c| >= |CLAUSE_PREFIX| + 1 && c[..|CLAUSE_PREFIX|] == CLAUSE_PREFIX && c[|c| - 1] == '\'' then
      assert c == c[..|CLAUSE_PREFIX|] + c[|CLAUSE_PREFIX|..|c| - 1] + [c[|c| - 1]];
      Some(c[|CLAUSE_PREFIX|..|c| - 1])
    else None
  }

  function ClauseIds(cs: seq<string>): (ids: Option<seq<string>>)
    ensures ids.Some? ==> |ids.value| == |cs|
    decreases |cs|
  {
    if |cs| == 0 then Some([])
    else match (ClauseId(cs[0]), ClauseIds(cs[1..]))
      case (Some(id), Some(rest)) => Some([id] + rest)
      case _ => None
  }

  /** Reads a filter formula back into the assignment ids it selects. */
  function ParseFilter(f: string): Option<seq<string>> {
    if |f| >= 4 && f[..3] == "OR(" && f[|f| - 1] == ')' then
      ClauseIds(Split(f[3..|f| - 1], ','))
    else
      match ClauseId(f)
      case Some(id) => Some([id])
      case None => None
  }

  lemma ClauseIdOfClause(id: string)
    ensures ClauseId(Clause(id)) == Some(id)
  {
    var c := Clause(id);
    assert c[..|CLAUSE_PREFIX|] == CLAUSE_PREFIX;
    assert c[|CLAUSE_PREFIX|..|c| - 1] == id;
  }

  lemma {:induction false} ClauseIdsOfClauses(ids: seq<string>)
    ensures ClauseIds(Clauses(ids)) == Some(ids)
    decreases |ids|
  {
    if |ids| > 0 {
      ClauseIdOfClause(ids[0]);
      assert Clauses(ids)[1..] == Clauses(ids[1..]);
      ClauseIdsOfClauses(ids[1..]);
      assert [ids[0]] + ids[1..] == ids;
    }
  }

  /** Splitting a separator-free prefix followed by more text. */
  lemma {:induction false} SplitPrefix(a: string, rest: string, sep: char)
    requires sep !in a
    ensures Split(a + rest, sep) == [a + Split(rest, sep)[0]] + Split(rest, sep)[1..]
    decreases |a|
  {
    if |a| > 0 {
      assert (a + rest)[0] == a[0];
      assert (a + rest)[1..] == a[1..] + rest;
      SplitPrefix(a[1..], rest, sep);
      assert [a[0]] + (a[1..] + Split(rest, sep)[0]) == a + Split(rest, sep)[0];
    } else {
      var r := Split(rest, sep);
      assert a + rest == rest;
      assert a + r[0] == r[0];
      assert r == [r[0]] + r[1..];
    }
  }

  /** Split undoes Join when no part contains the separator. */
  lemma {:induction false} SplitJoin(parts: seq<string>, sep: char)
    requires |parts| >= 1
    requires forall i :: 0 <= i < |parts| ==> sep !in parts[i]
    ensures Split(Join(parts, sep), sep) == parts
    decreases |parts|
  {
    if |parts| == 1 {
      SplitPrefix(parts[0], "", sep);
      assert parts[0] + "" == parts[0];
    } else {
      var tail := Join(parts[1..], sep);
      assert Join(parts, sep) == parts[0] + ([sep] + tail);
      SplitPrefix(parts[0], [sep] + tail, sep);
      assert ([sep] + tail)[0] == sep;
      assert ([sep] + tail)[1..] == tail;
      assert Split([sep] + tail, sep) == [""] + Split(tail, sep);
      assert parts[0] + "" == parts[0];
      SplitJoin(parts[1..], sep);
      assert [parts[0]] + parts[1..] == parts;
    }
  }

  /** The formula selects exactly the given ids, each once and in order, as
      long as no id contains a comma (ids are interpolated without escaping). */
  lemma CompletionFilterRoundTrip(ids: seq<string>)
    requires |ids| >= 1
    requires forall i :: 0 <= i < |ids| ==> ',' !in ids[i]
    ensures ParseFilter(CompletionFilter(ids).value) == Some(ids)
  {
    var f := CompletionFilter(ids).value;
    if |ids| == 1 {
      ClauseIdOfClause(ids[0]);
      assert f == CLAUSE_PREFIX + (ids[0] + "'");
      assert f[0] == '{';
      assert f[..3] != "OR(" by {
        assert f[..3][0] == f[0];
      }
      assert ids == [ids[0]];
    } else {
      var cs := Clauses(ids);
      forall i | 0 <= i < |cs|
        ensures ',' !in cs[i]
      {
        assert cs[i] == CLAUSE_PREFIX + ids[i] + "'";
      }
      var body := Join(cs, ',');
      assert f == "OR(" + body + ")";
      assert f[..3] == "OR(" && f[3..|f| - 1] == body;
      SplitJoin(cs, ',');
      ClauseIdsOfClauses(ids);
    }
  }

  /** The fields `exerciseCompletions.listForClient` asks the store for. */
  const COMPLETION_LIST_FIELDS: set<string> := {ASSIGNMENT, COMPLETION_DATE, NOTES}

  /** The same list with the field the dashboard compares added. */
  const COMPLETION_LIST_FIELDS_CORRECTED: set<string> := COMPLETION_LIST_FIELDS + {ASSIGNMENT_ID}

  /** A record as returned by a query that names its fields: only those fields. */
  function Project(r: Record, names: set<string>): (p: Record)
    ensures p.id == r.id
    ensures p.fields.Keys == r.fields.Keys * names
    ensures forall k :: k in p.fields ==> p.fields[k] == r.fields[k]
  {
    Record(r.id, map k | k in r.fields && k in names :: r.fields[k])
  }

  /** exerciseCompletions.listForClient given the client's assignment ids,
      the store's query (an opaque function of the formula) and the field
      list: no query and an empty list without assignments; otherwise every
      record the query returns, in order, cut down to the listed fields. */
  function ListCompletionsSelecting(assignIds: seq<string>, query: string -> seq<Record>, names: set<string>)
    : (rs: seq<Record>)
    ensures |assignIds| == 0 ==> rs == []
    ensures |assignIds| > 0 ==> |rs| == |query(CompletionFilter(assignIds).value)|
    ensures |assignIds| > 0 ==> forall i :: 0 <= i < |rs| ==>
              rs[i] == Project(query(CompletionFilter(assignIds).value)[i], names)
    ensures forall i :: 0 <= i < |rs| ==> rs[i].fields.Keys <= names
  {
    match CompletionFilter(assignIds)
    case None => []
    case Some(f) =>
      var found := query(f);
      seq(|found|, i requires 0 <= i < |found| => Project(found[i], names))
  }

  /** listForClient as written: Assignment, Completion Date and Notes only. */
  function ListCompletions(assignIds: seq<string>, query: string -> seq<Record>): (rs: seq<Record>)
    ensures |assignIds| == 0 ==> rs == []
    ensures |assignIds| > 0 ==> |rs| == |query(CompletionFilter(assignIds).value)|
    ensures |assignIds| > 0 ==> forall i :: 0 <= i < |rs| ==>
              rs[i] == Project(query(CompletionFilter(assignIds).value)[i], COMPLETION_LIST_FIELDS)
    ensures forall i :: 0 <= i < |rs| ==> ASSIGNMENT_ID !in rs[i].fields
  {
    ListCompletionsSelecting(assignIds, query, COMPLETION_LIST_FIELDS)
  }

  /** listForClient with `Assignment ID` among the requested fields. */
  function ListCompletionsCorrected(assignIds: seq<string>, query: string -> seq<Record>): (rs: seq<Record>)
    ensures |assignIds| == 0 ==> rs == []
    ensures |assignIds| > 0 ==> |rs| == |query(CompletionFilter(assignIds).value)|
    ensures |assignIds| > 0 ==> forall i :: 0 <= i < |rs| ==>
              rs[i] == Project(query(CompletionFilter(assignIds).value)[i], COMPLETION_LIST_FIELDS_CORRECTED)
    ensures forall i :: 0 <= i < |rs| ==> rs[i].fields.Keys <= COMPLETION_LIST_FIELDS_CORRECTED
  {
    ListCompletionsSelecting(assignIds, query, COMPLETION_LIST_FIELDS_CORRECTED)
  }
}
