/** The client's daily check-off list: whether an assignment is done today,
    and the click that deletes today's completion or creates one. Each
    click goes to the store at once; here the store is the completion list
    and a click is a pure function of it. */
module Dashboard {
  import opened Records
  import opened Calendar
  import Airtable
  import Progress

  /** A completion of assignment `assignId` stamped with today's key. Both
      fields are compared with `===`, so a missing or non-string field never
      matches. */
  predicate Matches(c: Record, assignId: string, todayKey: string) {
    TextField(c, ASSIGNMENT_ID) == Some(assignId) && TextField(c, COMPLETION_DATE) == Some(todayKey)
  }

  function IsMatch(assignId: string, todayKey: string): Record -> bool {
    c => Matches(c, assignId, todayKey)
  }

  function IsOther(assignId: string, todayKey: string): Record -> bool {
    c => !Matches(c, assignId, todayKey)
  }

  /** The checkbox state: `completions.some(...)`. */
  predicate Done(comps: seq<Record>, assignId: string, todayKey: string) {
    exists i :: 0 <= i < |comps| && Matches(comps[i], assignId, todayKey)
  }

  function MatchCount(comps: seq<Record>, assignId: string, todayKey: string): nat {
    Count(comps, IsMatch(assignId, todayKey))
  }

  /** The completions for other assignments or other days, in order. */
  function Others(comps: seq<Record>, assignId: string, todayKey: string): seq<Record> {
    Filter(comps, IsOther(assignId, todayKey))
  }

  lemma DoneIffCounted(comps: seq<Record>, assignId: string, todayKey: string)
    ensures Done(comps, assignId, todayKey) <==> MatchCount(comps, assignId, todayKey) > 0
  {
    CountZero(comps, IsMatch(assignId, todayKey));
  }

  /** `completions.find(...)`: the index of the first match. */
  function FirstMatch(comps: seq<Record>, assignId: string, todayKey: string): (i: Option<nat>)
    ensures i.None? <==> !Done(comps, assignId, todayKey)
    ensures i.Some? ==> i.value < |comps| && Matches(comps[i.value], assignId, todayKey)
    ensures i.Some? ==> forall j :: 0 <= j < i.value ==> !Matches(comps[j], assignId, todayKey)
    decreases |comps|
  {
    if |comps| == 0 then None
    else if Matches(comps[0], assignId, todayKey) then Some(0)
    else
      match FirstMatch(comps[1..], assignId, todayKey)
      case None =>
        assert forall i :: 1 <= i < |comps| ==> comps[i] == comps[1..][i - 1];
        None
      case Some(j) => Some(j + 1)
  }

  /** The record `create` is given: the user's email, the assignment and
      today's date-only key. */
  function NewCompletion(id: string, email: string, assignId: string, todayKey: string): (c: Record)
    ensures TextField(c, CLIENT_EMAIL) == Some(email)
    ensures Matches(c, assignId, todayKey)
    ensures c.fields.Keys == {CLIENT_EMAIL, ASSIGNMENT_ID, COMPLETION_DATE}
  {
    Record(id, map[CLIENT_EMAIL := Text(email), ASSIGNMENT_ID := Text(assignId), COMPLETION_DATE := Text(todayKey)])
  }

  /** handleChange: delete the first completion of this assignment for today
      if there is one, otherwise create one (the store names it `newId`). */
  function Toggle(comps: seq<Record>, assignId: string, email: string, todayKey: string, newId: string)
    : (r: seq<Record>)
    ensures Done(comps, assignId, todayKey) ==>
              FirstMatch(comps, assignId, todayKey).Some?
              && r == comps[..FirstMatch(comps, assignId, todayKey).value]
                      + comps[FirstMatch(comps, assignId, todayKey).value + 1..]
    ensures Done(comps, assignId, todayKey) ==> |r| == |comps| - 1
    ensures Done(comps, assignId, todayKey) ==>
              MatchCount(r, assignId, todayKey) == MatchCount(comps, assignId, todayKey) - 1
    ensures !Done(comps, assignId, todayKey) ==>
              |r| == |comps| + 1 && r[..|comps|] == comps
              && r[|comps|] == NewCompletion(newId, email, assignId, todayKey)
    ensures !Done(comps, assignId, todayKey) ==> MatchCount(r, assignId, todayKey) == 1
    ensures Others(r, assignId, todayKey) == Others(comps, assignId, todayKey)
  {
    match FirstMatch(comps, assignId, todayKey)
    case Some(i) =>
      var r := comps[..i] + comps[i + 1..];
      DeleteKeepsOthers(comps, i, assignId, todayKey);
      r
    case None =>
      var created := NewCompletion(newId, email, assignId, todayKey);
      var r := comps + [created];
      DoneIffCounted(comps, assignId, todayKey);
      CountAppend(comps, [created], IsMatch(assignId, todayKey));
      FilterAppend(comps, [created], IsOther(assignId, todayKey));
      assert r[..|comps|] == comps;
      r
  }

  /** Removing one matching record removes one match and nothing else. */
  lemma DeleteKeepsOthers(comps: seq<Record>, i: nat, assignId: string, todayKey: string)
    requires i < |comps| && Matches(comps[i], assignId, todayKey)
    ensures MatchCount(comps[..i] + comps[i + 1..], assignId, todayKey) == MatchCount(comps, assignId, todayKey) - 1
    ensures Others(comps[..i] + comps[i + 1..], assignId, todayKey) == Others(comps, assignId, todayKey)
  {
    CountRemove(comps, i, IsMatch(assignId, todayKey));
    FilterRemove(comps, i, IsOther(assignId, todayKey));
  }

  /** From a state with no match, one click checks the box. */
  lemma ToggleOnMakesDone(comps: seq<Record>, assignId: string, email: string, todayKey: string, newId: string)
    requires !Done(comps, assignId, todayKey)
    ensures Done(Toggle(comps, assignId, email, todayKey, newId), assignId, todayKey)
  {
    var r := Toggle(comps, assignId, email, todayKey, newId);
    assert Matches(r[|comps|], assignId, todayKey);
  }

  /** From a state with exactly one match, one click unchecks the box. */
  lemma ToggleOffSingleMatch(comps: seq<Record>, assignId: string, email: string, todayKey: string, newId: string)
    requires MatchCount(comps, assignId, todayKey) == 1
    ensures !Done(Toggle(comps, assignId, email, todayKey, newId), assignId, todayKey)
  {
    DoneIffCounted(comps, assignId, todayKey);
    DoneIffCounted(Toggle(comps, assignId, email, todayKey, newId), assignId, todayKey);
  }

  /** With two or more matches (duplicate records), a click deletes one and
      the box stays checked. */
  lemma ToggleWithDuplicatesStaysDone(comps: seq<Record>, assignId: string, email: string, todayKey: string, newId: string)
    requires MatchCount(comps, assignId, todayKey) >= 2
    ensures Done(Toggle(comps, assignId, email, todayKey, newId), assignId, todayKey)
  {
    DoneIffCounted(comps, assignId, todayKey);
    DoneIffCounted(Toggle(comps, assignId, email, todayKey, newId), assignId, todayKey);
  }

  /** With at most one match, two clicks restore the checkbox. */
  lemma DoubleToggleRestoresDone(comps: seq<Record>, assignId: string, email: string, todayKey: string,
                                 id1: string, id2: string)
    requires MatchCount(comps, assignId, todayKey) <= 1
    ensures Done(Toggle(Toggle(comps, assignId, email, todayKey, id1), assignId, email, todayKey, id2), assignId, todayKey)
            == Done(comps, assignId, todayKey)
  {
    var once := Toggle(comps, assignId, email, todayKey, id1);
    var twice := Toggle(once, assignId, email, todayKey, id2);
    DoneIffCounted(comps, assignId, todayKey);
    DoneIffCounted(once, assignId, todayKey);
    DoneIffCounted(twice, assignId, todayKey);
  }

  /** A click for one assignment never changes another assignment's box. */
  lemma ToggleLeavesOtherAssignments(comps: seq<Record>, assignId: string, other: string, email: string,
                                     todayKey: string, newId: string)
    requires other != assignId
    ensures Done(Toggle(comps, assignId, email, todayKey, newId), other, todayKey) == Done(comps, other, todayKey)
  {
    var r := Toggle(comps, assignId, email, todayKey, newId);
    if Done(comps, other, todayKey) {
      var i :| 0 <= i < |comps| && Matches(comps[i], other, todayKey);
      assert comps[i] in Others(comps, assignId, todayKey) by {
        FilterContains(comps, i, IsOther(assignId, todayKey));
      }
      var k :| 0 <= k < |r| && r[k] == comps[i] by {
        assert comps[i] in r;
      }
    }
    if Done(r, other, todayKey) {
      var i :| 0 <= i < |r| && Matches(r[i], other, todayKey);
      assert r[i] in Others(r, assignId, todayKey) by {
        FilterContains(r, i, IsOther(assignId, todayKey));
      }
      assert r[i] in comps;
      var k :| 0 <= k < |comps| && comps[k] == r[i];
    }
  }

  lemma {:induction false} FilterContains<T>(xs: seq<T>, i: nat, f: T -> bool)
    requires i < |xs| && f(xs[i])
    ensures xs[i] in Filter(xs, f)
    decreases |xs|
  {
    if i > 0 {
      FilterContains(xs[1..], i - 1, f);
    }
  }

  // ---------------------------------------------------------------------
  // Links to the store helpers and the progress page
  // ---------------------------------------------------------------------

  /** The created record's date is today's `formatISO` date key, which the
      store helper's normaliser passes through unchanged. */
  lemma CreatedRecordKeepsDate(newId: string, email: string, assignId: string, today: Day,
                               construct: Value -> Option<Day>)
    requires InRange(today)
    ensures Airtable.CompletionWriteFields(NewCompletion(newId, email, assignId, Format(today)).fields, construct)
            == Records.Ok(NewCompletion(newId, email, assignId, Format(today)).fields)
  {
    var key := Format(today);
    Airtable.ShapedDateWrittenAsIs(NewCompletion(newId, email, assignId, key).fields, construct);
  }

  /** Checking an exercise off today adds one to today's bar on the
      progress page, provided parseISO reads today's key as today. */
  lemma ToggleOnAddsToTodayBucket(comps: seq<Record>, assignId: string, email: string, today: Day, newId: string,
                                  p: Parsers)
    requires InRange(today) && p.iso(Format(today)) == Some(today)
    requires !Done(comps, assignId, Format(today))
    ensures Progress.CompletedOn(Some(Toggle(comps, assignId, email, Format(today), newId)), today, p)
            == Progress.CompletedOn(Some(comps), today, p) + 1
  {
    var key := Format(today);
    var created := NewCompletion(newId, email, assignId, key);
    assert TextField(created, COMPLETION_DATE) == Some(key);
    assert |key| == 10;
    assert Progress.CompletionDay(created, p) == Some(today);
    assert Toggle(comps, assignId, email, key, newId) == comps + [created];
    Progress.CompletedOnAppend(comps, created, today, p);
  }

  /** Checking an exercise off today gives a streak of at least one on the
      progress page, provided parseISO reads today's key as today. */
  lemma ToggleOnStartsStreak(comps: seq<Record>, assignId: string, email: string, today: Day, newId: string,
                             p: Parsers)
    requires InRange(today) && p.iso(Format(today)) == Some(today)
    requires !Done(comps, assignId, Format(today))
    ensures Progress.Streak(Some(Toggle(comps, assignId, email, Format(today), newId)), today, p) >= 1
  {
    var created := NewCompletion(newId, email, assignId, Format(today));
    assert Toggle(comps, assignId, email, Format(today), newId) == comps + [created];
    assert Progress.CompletionDay(created, p) == Some(today);
    Progress.CompletionTodayStartsStreak(comps, created, today, p);
  }

  // ---------------------------------------------------------------------
  // The list after a reload
  // ---------------------------------------------------------------------

  /** After every click the page reloads its list through listForClient. As
      written that list carries only Assignment, Completion Date and Notes,
      so no reloaded record has an `Assignment ID` and no box is checked. */
  lemma ReloadedListNeverDone(assignIds: seq<string>, query: string -> seq<Record>,
                              assignId: string, todayKey: string)
    ensures !Done(Airtable.ListCompletions(assignIds, query), assignId, todayKey)
  {
    var rs := Airtable.ListCompletions(assignIds, query);
    forall i | 0 <= i < |rs|
      ensures !Matches(rs[i], assignId, todayKey)
    {
      assert ASSIGNMENT_ID !in rs[i].fields;
    }
  }

  /** Hence, as written, every click on a reloaded list creates a record,
      however many completions of that assignment for today the store holds. */
  lemma ReloadedClickAlwaysCreates(assignIds: seq<string>, query: string -> seq<Record>, assignId: string,
                                   email: string, todayKey: string, newId: string)
    ensures Toggle(Airtable.ListCompletions(assignIds, query), assignId, email, todayKey, newId)
            == Airtable.ListCompletions(assignIds, query) + [NewCompletion(newId, email, assignId, todayKey)]
  {
    var rs := Airtable.ListCompletions(assignIds, query);
    ReloadedListNeverDone(assignIds, query, assignId, todayKey);
    var r := Toggle(rs, assignId, email, todayKey, newId);
    assert r == r[..|rs|] + [r[|rs|]];
  }

  /** With `Assignment ID` among the requested fields, the reloaded list shows
      a box checked exactly when the store holds a matching completion. */
  lemma ReloadCorrectedKeepsDone(assignIds: seq<string>, query: string -> seq<Record>,
                                 assignId: string, todayKey: string)
    requires |assignIds| > 0
    ensures Done(Airtable.ListCompletionsCorrected(assignIds, query), assignId, todayKey)
            <==> Done(query(Airtable.CompletionFilter(assignIds).value), assignId, todayKey)
  {
    var rs := Airtable.ListCompletionsCorrected(assignIds, query);
    var found := query(Airtable.CompletionFilter(assignIds).value);
    forall i | 0 <= i < |rs|
      ensures Matches(rs[i], assignId, todayKey) <==> Matches(found[i], assignId, todayKey)
    {
      assert rs[i] == Airtable.Project(found[i], Airtable.COMPLETION_LIST_FIELDS_CORRECTED);
      assert ASSIGNMENT_ID in Airtable.COMPLETION_LIST_FIELDS_CORRECTED;
      assert COMPLETION_DATE in Airtable.COMPLETION_LIST_FIELDS_CORRECTED;
    }
  }
}
