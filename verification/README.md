# Physiotherapy tracker: dates, streaks, check-offs and weekly counts

This project models the date-handling core of a small physiotherapy
exercise tracker. Clients tick off their assigned exercises each day. A
progress page shows the client's day-streak and a weekly bar chart. The
physiotherapist sees a per-client summary of the current week. All data
lives in a hosted record store, and a small set of helpers writes dates to
it in `yyyy-MM-dd` form.

Modules:

- `Records`: the store's records as field maps, JavaScript truthiness, and
  generic counting and filtering.
- `Calendar`: the proleptic Gregorian calendar for years 0000-9999. Days are
  integers counted from 0000-01-01. It covers the `yyyy-MM-dd` key and its
  inverse, the proof that string order on keys is date order, and Sunday-based
  weeks (the date library's default).
- `Airtable`: the date normaliser used before writes, the `Completion Date`
  rewrite in `create`/`update`, the `OR(...)` filter formula with its
  round trip, and the field list of the completion query.
- `Progress`: `parseDateSafe`, the streak (both as a function and as the
  source's capped loop), the seven weekly buckets, the daily goal and the
  streak colour.
- `Dashboard`: the "done today" predicate, the toggle that deletes the first
  match or creates a record, and what the reload after each click does to it.
- `Therapist`: the week's completion count per client, with instants and a
  fixed time-zone offset, and the summary rows.

Date parsing by the date library and by the JavaScript `Date` constructor is
not modelled internally. Each appears as a function parameter: `Parsers`
and `other` take a string, `construct` takes a field value, and each gives
an optional day or instant. The
store's query is a parameter, `query`, that maps a formula to records.

## Model

| member | source | states |
|---|---|---|
| Records.TextField | src/pages/ClientDashboard.js:26 | a field reads as a string exactly when it is present and holds a string, so `===` against a string fails for missing or non-string fields |
| Calendar.CivilOfDay | src/pages/ClientProgress.js:29 | every day in range has a valid calendar date that maps back to it |
| Calendar.Format | src/pages/ClientProgress.js:29 | `format(d,'yyyy-MM-dd')` has exactly the four-digit, dash, two-digit, dash, two-digit shape, and its digits read back as the day (with `ParseFormat`) |
| Calendar.ShapedLexIsChronological | src/pages/ClientProgress.js:30 | for two date-shaped keys, string order and (year, month, day) order agree |
| Calendar.FormatOrder | src/pages/ClientProgress.js:30 | `key(d1) <= key(d2)` as strings exactly when d1 <= d2, so the `s<=todayStr` filter keeps exactly the days up to today |
| Calendar.ParseKey | src/pages/PhysiotherapistDashboard.js:18 | a date-only string is read as a day only when it is date-shaped and names a real calendar date in 0000-9999, and then as exactly that date |
| Calendar.ParseFormat | src/pages/ClientDashboard.js:23 | reading back the key of a day gives that day |
| Calendar.FormatInjective | src/pages/ClientProgress.js:30 | two days have the same key exactly when they are the same day, so the `Set` of keys is the set of days |
| Calendar.StartOfWeek | src/pages/ClientProgress.js:72 | the week's start is the Sunday on or before the day, less than seven days earlier |
| Calendar.EndOfWeek | src/pages/ClientProgress.js:72 | the week's end is the Saturday six days after the week's start |
| Airtable.FormatDateForAirtable | src/services/airtable.js:11-17 | null exactly for falsy input; a `yyyy-MM-dd` string passes through; any other input gives the key of its UTC day when that day is in 0000-9999, the RangeError exactly when the value is an Invalid Date, and otherwise an out-of-range day |
| Airtable.FormatDateIdempotent | src/services/airtable.js:13-14 | normalising a normalised date changes nothing |
| Airtable.NormalizeDateField | src/services/airtable.js:120-122 | the same keys; every other field unchanged; an absent or falsy date kept as is; a present truthy date replaced by exactly the normaliser's date-only key; failure exactly when the normaliser gives no date-only key |
| Airtable.CompletionWriteFields | src/services/airtable.js:119-133 | `create` and `update` send the same fields; an absent or falsy `Completion Date` is kept; a truthy one becomes exactly `formatDateForAirtable`'s key; the write fails exactly when that gives no key |
| Airtable.ShapedDateWrittenAsIs | src/services/airtable.js:120-122 | a `Completion Date` that is already date-only is sent unchanged |
| Airtable.CompletionWriteIdempotent | src/services/airtable.js:127-133 | updating with fields that were already normalised rewrites nothing |
| Airtable.CompletionFilter | src/services/airtable.js:103-109 | no formula exactly when the client has no assignments; one assignment gives the bare clause with no `OR` wrapper; several give an `OR(...)` |
| Airtable.CompletionFilterRoundTrip | src/services/airtable.js:106-109 | the formula selects exactly the client's assignment ids, in order, whether there is one or several |
| Airtable.Project | src/services/airtable.js:113-116 | a returned record keeps its id and exactly the requested fields it has |
| Airtable.ListCompletionsSelecting | src/services/airtable.js:101-117 | no assignments give an empty list; otherwise each queried record, in order, cut down to the requested fields |
| Airtable.ListCompletions | src/services/airtable.js:111-116 | as written, each listed record is the queried record cut to `Assignment`, `Completion Date` and `Notes`, with equal length, so none carries `Assignment ID` |
| Airtable.ListCompletionsCorrected | src/services/airtable.js:111-116 | with `Assignment ID` requested, each listed record is the queried record cut to the four fields |
| Progress.ParseDateSafe | src/pages/ClientProgress.js:21-25 | no day for a missing or empty string; parseISO's day when valid; otherwise the Date constructor's |
| Progress.CompletedOnAppend | src/pages/ClientProgress.js:43-45 | a new completion adds one to its own day's bucket and to no other |
| Progress.StreakDays | src/pages/ClientProgress.js:30 | the set holds exactly the parsed completion days up to today |
| Progress.RunLength | src/pages/ClientProgress.js:32 | the run never exceeds its fuel; every day it covers has a completion; unless the fuel ran out, the next day back has none |
| Progress.Streak | src/pages/ClientProgress.js:27-35 | at most 365; 0 for a missing or empty list; covered by completion days; stops at a day without one; 0 when today has none |
| Progress.RunFromToday | src/pages/ClientProgress.js:31-32 | the capped walk back from today covers only completion days and stops at the first day without one |
| Progress.CalcStreak | src/pages/ClientProgress.js:27-35 | the source's loop computes the streak |
| Progress.StreakCharacterized | src/pages/ClientProgress.js:32 | any count covered by completions that stops at a missing day or the cap is the streak |
| Progress.RunLengthMonotone | src/pages/ClientProgress.js:32 | more completion days never shorten the run |
| Progress.StreakIgnoresRedundant | src/pages/ClientProgress.js:30 | an unparseable, future or same-day completion leaves the streak unchanged |
| Progress.StreakOfThree | src/pages/ClientProgress.js:27-35 | completions on today and the two days before, and no others, give a streak of 3 |
| Progress.CompletionTodayStartsStreak | src/pages/ClientProgress.js:32 | a completion dated today gives a streak of at least one |
| Progress.CompletedWithin | src/pages/ClientProgress.js:43-45 | a range count is at most the list length and 0 for a missing list |
| Progress.WithinStep | src/pages/ClientProgress.js:40-47 | widening the range by one day adds that day's bucket |
| Progress.MakeWeek | src/pages/ClientProgress.js:38-49 | seven buckets for a Sunday start, each holding its day's completion count, 0 for a missing or empty list, summing to the week's count |
| Progress.AssignedCount | src/pages/ClientProgress.js:56 | the number of assignments, 0 when the list is missing |
| Progress.DailyGoal | src/pages/ClientProgress.js:74 | no goal exactly when there are no assignments; otherwise the count |
| Progress.GoalLineIffAssigned | src/pages/ClientProgress.js:143-144 | the goal line is drawn exactly when the client has assignments |
| Progress.StreakColor | src/pages/ClientProgress.js:73 | success from 7 days, warn from 3 to 6, muted below 3 |
| Progress.StreakColorMonotone | src/pages/ClientProgress.js:73 | a longer streak never gets a lesser colour |
| Dashboard.DoneIffCounted | src/pages/ClientDashboard.js:46 | the box is checked exactly when at least one completion matches |
| Dashboard.FirstMatch | src/pages/ClientDashboard.js:26 | `find` returns nothing exactly when the box is unchecked; otherwise the first matching record |
| Dashboard.NewCompletion | src/pages/ClientDashboard.js:30-34 | the created record has exactly the email, assignment id and today's key, and matches |
| Dashboard.Toggle | src/pages/ClientDashboard.js:25-35 | checked: exactly the first matching record (the one `find` returns) is deleted, so one record and one match fewer; unchecked: the new record appended; every other completion kept in order |
| Dashboard.DeleteKeepsOthers | src/pages/ClientDashboard.js:27-28 | deleting a match removes one match and nothing else |
| Dashboard.ToggleOnMakesDone | src/pages/ClientDashboard.js:29-35 | clicking an unchecked box checks it |
| Dashboard.ToggleOffSingleMatch | src/pages/ClientDashboard.js:27-28 | clicking a box with one match unchecks it |
| Dashboard.ToggleWithDuplicatesStaysDone | src/pages/ClientDashboard.js:26-28 | with duplicate matches a click leaves the box checked |
| Dashboard.DoubleToggleRestoresDone | src/pages/ClientDashboard.js:25-35 | with at most one match, two clicks restore the box |
| Dashboard.ToggleLeavesOtherAssignments | src/pages/ClientDashboard.js:46 | a click never changes another assignment's box |
| Dashboard.CreatedRecordKeepsDate | src/services/airtable.js:119-124 | the dashboard's new record passes through the write normaliser unchanged |
| Dashboard.ToggleOnAddsToTodayBucket | src/pages/ClientProgress.js:40-46 | given parseISO reads today's key as today, checking a box adds exactly one to today's bar |
| Dashboard.ToggleOnStartsStreak | src/pages/ClientProgress.js:27-35 | checking an exercise today gives a streak of at least one |
| Dashboard.ReloadedListNeverDone | src/pages/ClientDashboard.js:36-38 | as written, after the reload no box is checked |
| Dashboard.ReloadedClickAlwaysCreates | src/pages/ClientDashboard.js:25-38 | as written, every click on a reloaded list creates a record |
| Dashboard.ReloadCorrectedKeepsDone | src/pages/ClientDashboard.js:46 | with `Assignment ID` requested, a reloaded box is checked exactly when the store holds a match |
| Therapist.WeekStartInstant | src/pages/PhysiotherapistDashboard.js:12 | `startOfWeek(new Date())` lies on the week's Sunday |
| Therapist.WeekEndInstant | src/pages/PhysiotherapistDashboard.js:13 | `endOfWeek(new Date())` lies on the Saturday, one millisecond short of seven days after the start |
| Therapist.InstantInWeek | src/pages/PhysiotherapistDashboard.js:19 | an instant lies between the bounds exactly when its local day lies in the week |
| Therapist.UtcMidnightEast | src/pages/PhysiotherapistDashboard.js:18 | at or east of UTC, midnight UTC of a day is on that local day |
| Therapist.UtcMidnightWest | src/pages/PhysiotherapistDashboard.js:18 | west of UTC, midnight UTC of a day is on the local day before |
| Therapist.DateInstant | src/pages/PhysiotherapistDashboard.js:18 | `new Date` reads a date-only key as midnight UTC and hands other strings to the engine |
| Therapist.CompletionInstant | src/pages/PhysiotherapistDashboard.js:18 | a missing date is an Invalid Date |
| Therapist.CompletedThisWeekAsWritten | src/pages/PhysiotherapistDashboard.js:17-20 | as written, the count is at most the number of completions |
| Therapist.IntendedDay | src/pages/PhysiotherapistDashboard.js:18 | a date-only key names its own local day; a missing date has none |
| Therapist.CompletedThisWeek | src/pages/PhysiotherapistDashboard.js:17-20 | the count is at most the number of completions |
| Therapist.KeyedCompletionCounted | src/pages/PhysiotherapistDashboard.js:17-20 | a keyed completion counts exactly when its day is in the week |
| Therapist.CountsRecords | src/pages/PhysiotherapistDashboard.js:17-20 | each record counts on its own, duplicates included |
| Therapist.ReadingsAgreeEast | src/pages/PhysiotherapistDashboard.js:18-19 | at or east of UTC both readings of a record agree |
| Therapist.AsWrittenAgreesEast | src/pages/PhysiotherapistDashboard.js:17-20 | at or east of UTC the code as written gives the intended count |
| Therapist.WestMissesSunday | src/pages/PhysiotherapistDashboard.js:17-20 | west of UTC, as written, a completion dated this Sunday is not counted |
| Therapist.WestCountsNextSunday | src/pages/PhysiotherapistDashboard.js:17-20 | west of UTC, as written, a completion dated next Sunday is counted |
| Therapist.Stats | src/pages/PhysiotherapistDashboard.js:14-21 | one row per client, in order, with the client's name, assignment count and the week count as the page computes it; at or east of UTC that count is also the intended one |
| Therapist.ClientsAgreeEast | src/pages/PhysiotherapistDashboard.js:14-21 | at or east of UTC every client's intended and as-written counts agree |
| Therapist.StatsRowLocal | src/pages/PhysiotherapistDashboard.js:14-21 | a client's row depends only on that client's data |

## Left out

- Rendering, styling, navigation, the chart library and the bar labels
  (`EEE`, `dd/MM`, `MMM dd, yyyy`) are display only.
- Network calls, authentication, `Promise.all` ordering and the
  `completion-updated` event are left out. The store is a parameter. Its
  `sort` by `Completion Date` is part of what `query` returns.
- The date library's `parseISO` and the `Date` constructor are parameters.
  The one exception is the reading of date-only keys as midnight UTC by the
  constructor in `Therapist.DateInstant`, which follows the ECMAScript
  Date Time String Format rule. A parameter that gives a wrong day is
  outside the model. `ToggleOnAddsToTodayBucket` and `ToggleOnStartsStreak`
  assume parseISO reads today's key as today.
- `Calendar.Format`: it writes year 0000 (1 BC) as `0000`, like `formatISO`
  and `toISOString`. date-fns `format` with `yyyy` writes the year of the era
  and gives `0001` for that year. So for the 366 days of year 0000 the
  progress page's key is not `Format`'s and does not read back as the day;
  the model's claims about the progress page's keys hold for years
  0001-9999.
- The therapist page calls `new Date()` twice, once for the week's start and
  once for its end. A load that crosses midnight from Saturday to Sunday can
  take the two bounds from different weeks. The model uses one `today` for
  both.
- Days are limited to years 0000-9999, the range of a four-digit key.
  `toISOString` writes an expanded year outside that range. Here that case
  is the failure `OutOfKeyRange`.
- Time zones are a single fixed offset. Daylight-saving changes inside a
  week are not modelled. The progress page's days are local days, given
  directly.
- Field values other than strings (numbers, linked-record arrays) are treated
  as absent wherever a page compares with `===` or parses a date.
- JavaScript compares strings by UTF-16 code units. `Calendar.LexLt` compares
  code points. The two agree on the ASCII digits and dashes of a date key.
- The streak is computed over the set of days. The source builds a sorted,
  reversed array first. Only its membership is ever used, so the order is
  dropped.
- `clients.create` normalises `Date Joined` with the same rewrite.
  `Airtable.NormalizeDateField` takes the field name as a parameter and
  covers it. The other store helpers (exercises, clients, assignments) only
  read or write without transformation.
- `exerciseCompletions.create` and `update` write the normalised date back
  into the caller's `fields` object. `Airtable.NormalizeDateField` returns a
  new map instead; no caller reads the object again.
- The dashboard writes `Assignment ID`, while the completion filter matches
  the linked field `{Assignment}`. Whether a created record is selected by a
  later query depends on the table's schema, which is not part of this
  model; `query` is opaque.
- `Dashboard.Toggle` models one click on the list the page holds. The reload
  that follows is `ListCompletions`. Ids for created records are a parameter.
- `Therapist.CompletedThisWeekAsWritten`: its contract bounds the count.
  Its relation to the intended count is stated by `AsWrittenAgreesEast`,
  `WestMissesSunday` and `WestCountsNextSunday`.

## Findings

| source | as written | input that shows it | evidently intended | confidence | as-written member | corrected member |
|---|---|---|---|---|---|---|
| src/services/airtable.js:113 | the completion query requests only `Assignment`, `Completion Date` and `Notes`, but the dashboard matches on `Assignment ID` | any client, from the first load and after every reload: no box is checked, and a click on an exercise already done today creates a duplicate instead of deleting it | request `Assignment ID` too, so a reloaded box is checked exactly when the store holds a match | not executed | Dashboard.ReloadedClickAlwaysCreates | Dashboard.ReloadCorrectedKeepsDone |
| src/pages/PhysiotherapistDashboard.js:18 | `new Date('yyyy-MM-dd')` is midnight UTC, compared against local week bounds | a viewer at UTC-5 and a completion dated this week's Sunday: it is read as Saturday 19:00 of the week before and not counted, while next Sunday's is counted | count a completion when its date-only key names a day of this week, the way parseISO reads a date-only key | not executed | Therapist.WestMissesSunday | Therapist.CompletedThisWeek |
