# A verified model of the task editor of the SPIN task manager

The SPIN task manager is a single-page browser application that keeps a list
of tasks. Each task has a name, free-text fields, a start and an end date and
a list of workloads, each a start and end date inside the task. This project
models the three pieces where that application makes decisions:

- the workload editor (`src/components/LoadEditor.js`): the strict ISO date
  check `parseISODate`/`isValidDate`, `normalizeWorkload` (auto-fix of a
  reversed range, clamping into the task's range), the inclusive day count
  `calcDurationDays`, the add/update/remove list updaters, the pass that
  re-clamps every workload when the task's dates change, and the minimum
  offered for a workload's end;
- the task dialog (`src/components/TaskModal.js`): the blank new task, the
  row keys given to workloads on opening, `setField`, `validate` with its
  error messages, and `handleSave`, which strips row keys before saving;
- the application shell (`src/App.js`): `getNextTaskId`, and the task-list
  updates made by `handleSaveTask` (create or edit) and `handleDeleteTask`.
  The list itself is the field of the `App.TaskStore` class.

The modules are:

| file | module | contents |
|---|---|---|
| `Wrappers.dfy` | `Wrappers` | `Option` |
| `JsString.dfy` | `JsString` | JavaScript's `<`, `<=`, `>` on strings, `String.prototype.trim`, decimal digit strings |
| `JsDate.dfy` | `JsDate` | `Date.UTC` and the `getUTCFullYear`/`getUTCMonth`/`getUTCDate` getters, on whole days, after ECMA-262 section 21.4.1 |
| `Rfc3339.dfy` | `Rfc3339` | the reference definition of a calendar date: `full-date` of RFC 3339 section 5.6, the month lengths of section 5.7 and the leap-year rule of Appendix C |
| `IsoDate.dfy` | `IsoDate` | `parseISODate`/`isValidDate` and what they accept |
| `LoadEditor.dfy` | `LoadEditor` | workloads, normalization, day counts, list updaters |
| `TaskModal.dfy` | `TaskModal` | tasks, the dialog's date check, field edits, validation, saving |
| `App.dfy` | `App` | ids, the save and delete updaters, the `TaskStore` class |

The main results:

- `parseISODate` accepts exactly the RFC 3339 full-dates whose year is at
  least 100, and its time value is the date's day number times 86 400 000.
  Years 0000–0099 are refused because `Date.UTC` maps a two-digit year to
  1900 plus that year, so the round trip never gives the year back.
- For two valid dates, the code's string comparisons (`<`, `<=`, `>`) agree
  with the order of the days they name. The range check, the row checks of
  the dialog, clamping of valid dates and the day count are therefore also
  proved as statements about days. The minimum offered for a workload's end
  and the clamping of strings that are not valid dates are stated in string
  order only.
- `normalizeWorkload` (an imperative method) equals a closed-form definition
  built from clamping. Its result is always settled: both date fields set
  (possibly to the empty string), non-empty dates in order, and inside the
  task's range when that range is usable. A settled
  workload is a fixed point, so normalizing twice is the same as once, and
  the re-clamp pass reports an adjustment exactly when some date changed.
- `calcDurationDays` is defined exactly when both dates are valid and in
  order, and then equals the inclusive number of days (1 for a single day).
- `validate` reports each error exactly when its condition holds, and the
  form passes exactly when both error maps are empty. A workload whose two
  dates are valid, once the editor normalized it against a usable task
  range, never gets a workload error. A blank or invalid date is not
  repaired by normalizing and still gets one.
- With ids as exact integers, `getNextTaskId` exceeds every finite id, so a
  created task never takes an existing id, and each creation moves the next
  id up by one. JavaScript adds in floating point: freshness holds there
  while every id is at most `Number.MAX_SAFE_INTEGER`, and the step of one
  while the largest id is below it; from 2^53 on the sum can round back to
  the largest id (see "Left out"). Saving and
  deleting keep the ids of the list distinct. Deleting removes every task
  with the id, keeps the rest in order, and removes exactly one task when
  ids are distinct.

## Model

| member | source | states |
|---|---|---|
| `JsString.Less` | src/components/LoadEditor.js:29 | JavaScript's `a < b` on strings: lexicographic order, a proper prefix below the longer string; `a > b` is `Less(b, a)`; its order properties are the lemmas below |
| `JsString.LessEq` | src/components/LoadEditor.js:29 | JavaScript's `a <= b` on strings, `!(b < a)` |
| `JsString.LessIrreflexive` | src/components/LoadEditor.js:29 | no string is below itself under JavaScript's string `<` |
| `JsString.LessAsymmetric` | src/components/LoadEditor.js:35 | `a < b` and `b < a` never both hold |
| `JsString.LessTransitive` | src/components/LoadEditor.js:41-47 | string `<` is transitive |
| `JsString.LessTotal` | src/components/LoadEditor.js:41-47 | two strings are equal or one is below the other, so `<=` is `!(b < a)` |
| `JsString.LessAppend` | src/components/LoadEditor.js:29 | comparing two concatenations whose first parts have equal length compares the first parts, then the second parts |
| `JsString.DigitStringOrder` | src/components/LoadEditor.js:8-10 | two digit strings of the same width compare as strings in the order of the numbers they spell, and are equal exactly when the numbers are |
| `JsString.DecimalValue` | src/components/LoadEditor.js:8-10 | `Number` of an n-digit string is a natural number below 10^n |
| `JsString.Trim` | src/components/TaskModal.js:73 | `s.trim()` is no longer than `s` and neither starts nor ends with white space or a line terminator |
| `JsString.TrimEmptyIffBlank` | src/components/TaskModal.js:73 | `trim()` gives the empty string exactly when every character is white space or a line terminator |
| `JsDate.DayFromYearMonotone` | src/components/LoadEditor.js:11 | later years start later, by at least 365 days a year |
| `JsDate.DayFromYearIsFormula` | src/components/LoadEditor.js:11 | the year-by-year day count of a year's first day is the closed form `365(y-1970) + floor((y-1969)/4) - floor((y-1901)/100) + floor((y-1601)/400)` of ECMA-262 |
| `JsDate.FormulaStep` | src/components/LoadEditor.js:11 | that closed form grows by 366 across a leap year and by 365 across any other |
| `JsDate.MonthStartMonotone` | src/components/LoadEditor.js:11 | later months of a year start later |
| `JsDate.MonthStart` | src/components/LoadEditor.js:11 | a year's months start at day 0 and the month after December starts at the year's length |
| `JsDate.MonthLength` | src/components/LoadEditor.js:11 | every month has 28 to 31 days |
| `JsDate.DateUTC` | src/components/LoadEditor.js:11 | `Date.UTC` of whole year, month and day gives a whole number of days |
| `JsDate.DateUTCDay` | src/components/LoadEditor.js:11 | the day `Date.UTC` lands on, with years 0 to 99 moved to 1900 and later |
| `JsDate.FieldsOfDay` | src/components/LoadEditor.js:12-17 | the UTC getters of a day give a calendar date whose day number is that day |
| `JsDate.FieldsOfTime` | src/components/LoadEditor.js:12-17 | `new Date(t)` read through the UTC getters is the calendar date of the day of `t`, for days from 0000-01-01 on |
| `JsDate.FieldsOfDayNumber` | src/components/LoadEditor.js:14-18 | the getters give back exactly the calendar date a day number was made from |
| `JsDate.DayNumberLocated` | src/components/LoadEditor.js:14-15 | the year and month searches of the getters find the year and month a day number was made from |
| `JsDate.DayNumberOrder` | src/components/LoadEditor.js:29 | calendar dates ordered by (year, month, day) are ordered by day number, both ways |
| `JsDate.EarlierYearEarlierDay` | src/components/LoadEditor.js:29 | every day of an earlier year comes before every day of a later year |
| `JsDate.EarlierMonthEarlierDay` | src/components/LoadEditor.js:29 | within a year, every day of an earlier month comes before every day of a later month |
| `JsDate.TwoDigitYearsMoveOn` | src/components/LoadEditor.js:11-14 | `Date.UTC` of a year from 0 to 99 reads back as a year of 1898 or later |
| `IsoDate.ParseISODate` | src/components/LoadEditor.js:4-20 | parseISODate: a string matching the pattern whose `Date.UTC` reads back as the same year, month and day gives those numbers and the time value; anything else gives nothing; what it accepts is `IsoDate.ParseISODateAcceptsFullDates` |
| `IsoDate.ReadBack` | src/components/LoadEditor.js:11-19 | the round trip through `Date.UTC` and the UTC getters, and the result object |
| `IsoDate.IsValidDate` | src/components/LoadEditor.js:22-24 | isValidDate: the parse gives a result |
| `IsoDate.ExecDatePattern` | src/components/LoadEditor.js:6 | a match of `^(\d{4})-(\d{2})-(\d{2})$` yields digit groups of widths 4, 2 and 2 |
| `IsoDate.PatternIsFullDateSyntax` | src/components/LoadEditor.js:6 | the pattern matches exactly the strings with RFC 3339 full-date syntax, and its groups are the year, month and day fields |
| `IsoDate.MonthLengthsAgree` | src/components/LoadEditor.js:11 | the month lengths of `Date` are those of RFC 3339 section 5.7 |
| `IsoDate.RoundTripOfCalendarDay` | src/components/LoadEditor.js:11-18 | a real date with a year of at least 100 survives the `Date.UTC` round trip, and its time value is its day number |
| `IsoDate.RoundTripOnlyCalendarDays` | src/components/LoadEditor.js:14-18 | a string that survives the round trip names a real calendar date |
| `IsoDate.RoundTripRejectsTwoDigitYears` | src/components/LoadEditor.js:11-18 | a year below 100 never survives the round trip |
| `IsoDate.ParseISODateAcceptsFullDates` | src/components/LoadEditor.js:4-24 | `isValidDate` holds exactly for RFC 3339 full-dates with year at least 100, and the parse returns that year, month, day and day-number times 86 400 000 |
| `IsoDate.FullDateStringOrder` | src/components/LoadEditor.js:29 | full-date strings compare as their (year, month, day) triples do |
| `IsoDate.StringOrderIsDayOrder` | src/components/LoadEditor.js:35 | for valid dates, string `<` is day order and string equality is the same day |
| `IsoDate.StringLessEqIsDayOrder` | src/components/LoadEditor.js:68 | for valid dates, string `<=` is day order |
| `IsoDate.UtcIsWholeDays` | src/components/LoadEditor.js:19 | the parsed time value is the day times 86 400 000 |
| `IsoDate.UtcIsMidnight` | src/components/LoadEditor.js:11 | the parsed time value is a whole number of days |
| `LoadEditor.CanLimitRange` | src/components/LoadEditor.js:28-29 | canLimitRange: both task dates valid and the start not after the end in string order; in days, `LoadEditor.CanLimitRangeIsDaySpan` |
| `LoadEditor.CanLimitRangeIsDaySpan` | src/components/LoadEditor.js:68 | the range is usable exactly when both task dates are valid and the start day is not after the end day |
| `LoadEditor.ParsedDatesAreNonEmpty` | src/components/LoadEditor.js:41-47 | a valid date is a non-empty string, so the `s &&` guards pass for it |
| `LoadEditor.OrEmpty` | src/components/LoadEditor.js:31-32 | a date field read as `w.startDate` or else the empty string: a missing date becomes `""`, a present one stays as it is; `LoadEditor.NormalizedKeepsFields` states that a normalized date is empty exactly when this reading of the original is empty |
| `LoadEditor.Normalized` | src/components/LoadEditor.js:27-51 | the closed form of normalizeWorkload on the dates read by `LoadEditor.OrEmpty`: a non-empty end before a non-empty start moves up to the start, then each non-empty date is clamped into the task range when it is usable; its meaning is stated by `LoadEditor.NormalizedIsSettled`, `LoadEditor.SettledIsFixedPoint`, `LoadEditor.NormalizeIdempotent`, `LoadEditor.NormalizedKeepsFields` and `LoadEditor.NormalizedDaysInsideTask` |
| `LoadEditor.NormalizeWorkload` | src/components/LoadEditor.js:27-51 | the step-by-step fixes and clamps compute the closed-form normalization |
| `LoadEditor.ClampIntoRange` | src/components/LoadEditor.js:40-48 | with a usable range, each non-empty date comes out clamped into it and an empty one stays empty |
| `LoadEditor.SequentialClampIsClamp` | src/components/LoadEditor.js:41-42 | raising to the task start, then lowering to the task end, is clamping into the range |
| `LoadEditor.ClampInside` | src/components/LoadEditor.js:41-45 | a clamped date lies inside the range and is the date or one of the bounds |
| `LoadEditor.ClampMonotone` | src/components/LoadEditor.js:41-47 | clamping keeps two dates in order, so the final reverse fix is never needed |
| `LoadEditor.ClampKeepsInside` | src/components/LoadEditor.js:41-45 | a date already inside the range is left as it is |
| `LoadEditor.NormalizedIsSettled` | src/components/LoadEditor.js:27-51 | a normalized workload has both dates, in order, and inside a usable task range |
| `LoadEditor.SettledIsFixedPoint` | src/components/LoadEditor.js:27-51 | normalizing a settled workload returns it unchanged |
| `LoadEditor.NormalizeIdempotent` | src/components/LoadEditor.js:27-51 | normalizing twice equals normalizing once |
| `LoadEditor.NormalizedKeepsFields` | src/components/LoadEditor.js:31-50 | the row key is kept, a missing date becomes `""`, an empty date stays empty and a present one stays present, and with no usable range only a reversed end moves (to the start) |
| `LoadEditor.NormalizedKeepsValidity` | src/components/LoadEditor.js:27-51 | valid dates stay valid |
| `LoadEditor.NormalizedDaysInsideTask` | src/components/LoadEditor.js:40-48 | with a usable range, the normalized days satisfy task start <= start <= end <= task end |
| `LoadEditor.CalcDurationDays` | src/components/LoadEditor.js:54-61 | calcDurationDays: parse both dates, then count; its meaning is `LoadEditor.DurationIsInclusiveDayCount` |
| `LoadEditor.DurationBetween` | src/components/LoadEditor.js:57-60 | the count of two parse results: none when either is missing or the start is later, else the floored day difference plus one |
| `LoadEditor.DurationIsInclusiveDayCount` | src/components/LoadEditor.js:54-61 | the count exists exactly when both dates are valid and in order (by day or by string), and is end day minus start day plus one, so 1 for a single day |
| `LoadEditor.DurationOfValidDates` | src/components/LoadEditor.js:54-61 | for two valid dates the count is end day minus start day plus one when the start day is not later, and none otherwise; string `<=` is day order |
| `LoadEditor.DurationBetweenMidnights` | src/components/LoadEditor.js:57-60 | between two midnights the count is the difference of their days plus one, or none when the start is later |
| `LoadEditor.WholeDaysApart` | src/components/LoadEditor.js:57-59 | for whole days, comparing and subtracting time values compares and subtracts days |
| `LoadEditor.AddWorkload` | src/components/LoadEditor.js:70-76 | nothing happens without a usable range; otherwise one settled workload on the task's first day is appended after the old list |
| `LoadEditor.SetDate` | src/components/LoadEditor.js:82 | `{ ...w, [field]: value }`: the named date takes the value, the other date and the row key are kept |
| `LoadEditor.UpdateWorkload` | src/components/LoadEditor.js:78-86 | only the entry at the index changes, to its edited and normalized, hence settled, form |
| `LoadEditor.RemoveWorkload` | src/components/LoadEditor.js:88-90 | the entry at the index is dropped and the rest keep their order |
| `LoadEditor.UpdatesKeepListSettled` | src/components/LoadEditor.js:70-90 | adding, updating and removing keep a settled list settled |
| `LoadEditor.DatesChanged` | src/components/LoadEditor.js:101 | the `!==` test: the start or the end differs; `LoadEditor.ClampAll` and `LoadEditor.NormalizeEach` report an adjustment exactly when it holds for some entry |
| `LoadEditor.ClampAll` | src/components/LoadEditor.js:93-108 | nothing happens without a usable range; otherwise every entry is normalized, all are settled, and the adjustment is reported exactly when some date changed; a settled list comes back as it was, unreported |
| `LoadEditor.NormalizeEach` | src/components/LoadEditor.js:96-104 | the per-entry loop normalizes each entry and flags exactly the changed dates |
| `LoadEditor.EndMin` | src/components/LoadEditor.js:128-129 | without a usable range the end picker's minimum is the task start; with one it is the later of the task start and the workload's start (one of the two, not below either), and for a settled workload it is not after the workload's end |
| `TaskModal.ParseISODate` | src/components/TaskModal.js:4-15 | the dialog's own parseISODate, returning only the time value; `TaskModal.SameAsEditorCheck` ties it to the editor's |
| `TaskModal.IsValidDate` | src/components/TaskModal.js:17-19 | the dialog's isValidDate: its parse gives a result |
| `TaskModal.SameAsEditorCheck` | src/components/TaskModal.js:4-19 | the dialog's copy of the date check accepts the same strings as the editor's and gives the same time value |
| `TaskModal.StringOrderIsTimeOrder` | src/components/TaskModal.js:78 | for valid dates, string `<` is the order of time values |
| `TaskModal.NewTask` | src/components/TaskModal.js:42-53 | a new task has no id, empty name and dates, no workloads and the status `In Progress` |
| `TaskModal.WithRowKeys` | src/components/TaskModal.js:35-40 | opening an existing task gives each workload a row key and keeps its dates |
| `TaskModal.SetField` | src/components/TaskModal.js:64-67 | the named field takes the value and no other field changes |
| `TaskModal.MessagesByKey` | src/components/TaskModal.js:73-80 | each task error key holds its own message |
| `TaskModal.CheckTask` | src/components/TaskModal.js:73-80 | a name error exactly when the name trims to empty, a date error exactly for each invalid date, a range error exactly when both dates are valid and the start is after the end |
| `TaskModal.RecordTaskErrors` | src/components/TaskModal.js:73-80 | each task error key is recorded exactly when its check failed, with its own message |
| `TaskModal.WorkloadError` | src/components/TaskModal.js:83-95 | the one message a row gets, the first failing check in the callback's order; stated in days by `TaskModal.WorkloadErrorInDays` |
| `TaskModal.RowError` | src/components/TaskModal.js:83-95 | the checks of a row on the four dates they read: a missing or invalid date, then end before start, then (with both task dates valid) a date outside the task range |
| `TaskModal.Passes` | src/components/TaskModal.js:101 | the form passes: name not blank, both task dates valid and in order, and no row error |
| `TaskModal.CheckWorkload` | src/components/TaskModal.js:83-95 | a row's message is the first failing check |
| `TaskModal.CheckWorkloads` | src/components/TaskModal.js:82-96 | the row error map has an entry exactly for each failing row, with its message |
| `TaskModal.Validate` | src/components/TaskModal.js:69-102 | each error is reported exactly when its condition holds, and the result is true exactly when both maps are empty, exactly when the form passes |
| `TaskModal.PassesIffNoErrors` | src/components/TaskModal.js:101 | the form passes exactly when both error maps are empty |
| `TaskModal.TaskChecksPass` | src/components/TaskModal.js:73-80 | the task error map is empty exactly when the task-level checks pass |
| `TaskModal.RowChecksPass` | src/components/TaskModal.js:82-96 | the row error map is empty exactly when no row fails |
| `TaskModal.NoKeysIsEmpty` | src/components/TaskModal.js:101 | a task error map with none of the four keys has no keys |
| `TaskModal.NewTaskDoesNotPass` | src/components/TaskModal.js:42-53 | a blank new task cannot be saved: its name is blank and neither date is valid |
| `TaskModal.WorkloadErrorInDays` | src/components/TaskModal.js:82-96 | each row message, and the absence of one, stated in days: invalid dates; end day before start day; days outside the task's days when the task dates are valid |
| `TaskModal.TaskRangeInDays` | src/components/TaskModal.js:78-80 | the range error fires exactly when both dates are valid and the end day is before the start day, so a one-day task is accepted |
| `TaskModal.NormalizedWorkloadPasses` | src/components/TaskModal.js:82-96 | a workload whose two dates are valid, normalized by the editor against a usable task range, has no row error |
| `TaskModal.CleanWorkloads` | src/components/TaskModal.js:108 | saved workloads keep their dates in order and lose their row keys |
| `TaskModal.HandleSave` | src/components/TaskModal.js:104-111 | the error maps are those of validate (each key exactly when its check fails, with its message); a task is handed to the saver exactly when both are empty, exactly when the form passes, and it is the edited task with cleaned workloads |
| `TaskModal.RowKeysAreDropped` | src/components/TaskModal.js:35-40 | row keys never reach the saved workloads |
| `TaskModal.SavedTaskRevalidates` | src/components/TaskModal.js:104-110 | the saved task still passes validation |
| `App.FiniteId` | src/App.js:26-27 | `Number(t.id)` when finite: a numeric id is itself, `null` is 0, other ids are skipped |
| `App.MaxStep` | src/App.js:26-27 | the reducer's step is `Math.max` with a finite id: at least the running maximum and the id, and one of the two |
| `App.MaxId` | src/App.js:25-28 | the reduction is at least 0, at least every finite id, and is 0 or some task's finite id |
| `App.NextTaskId` | src/App.js:24-30 | the next id is at least 1, above every finite id, and is 1 or one past some task's finite id |
| `App.NextTaskIdIsFresh` | src/App.js:24-30 | no task of the list has the next id |
| `App.MaxIdPrepend` | src/App.js:25-28 | putting a task in front changes the reduction only by that task's id |
| `App.HasId` | src/App.js:79 | `prev.some((t) => t.id === id)` |
| `App.SaveUpdate` | src/App.js:78-94 | the updater of handleSaveTask; it keeps the length on an edit and adds one task on a creation; its cases are `App.SaveCreates` and `App.SaveEdits` |
| `App.ReplaceById` | src/App.js:92-93 | editing keeps length, order and ids, replaces the tasks with the payload's id and no others |
| `App.SaveCreates` | src/App.js:79-88 | a payload with an unknown id is put first under the next id, which no earlier task has, and the old list follows |
| `App.SaveEdits` | src/App.js:79-93 | a payload with a known id replaces the tasks with that id and nothing else |
| `App.SaveStoresPayload` | src/App.js:78-94 | after saving, the payload's content is in the list |
| `App.SaveKeepsIdsUnique` | src/App.js:78-94 | saving keeps the ids distinct |
| `App.CreatedIdsAreConsecutive` | src/App.js:82-88 | after a creation the next id is one higher |
| `App.NextTaskIdIsExact` | src/App.js:25-29 | when every finite id is at most `Number.MAX_SAFE_INTEGER`, the next id is at most 2^53, so the double sum `maxId + 1` equals the exact one |
| `App.CreatedIdsStayExact` | src/App.js:24-30 | while every finite id is at most `Number.MAX_SAFE_INTEGER` and the largest is below it, the created id is at most that bound and the next id after it is one higher and at most 2^53, so both double sums are exact |
| `App.SaveKeepsIdsSafe` | src/App.js:78-94 | a save keeps every id at most `Number.MAX_SAFE_INTEGER` as long as the largest id is below it |
| `App.DeleteUpdate` | src/App.js:103 | no remaining task has the id, and a task remains exactly when it was there with another id |
| `App.DeleteAbsentIsNoOp` | src/App.js:103 | deleting an id no task has changes nothing |
| `App.DeleteDistributes` | src/App.js:103 | deleting from a concatenation deletes from each part, so the survivors keep their order |
| `App.DeleteRemovesOne` | src/App.js:103 | with distinct ids, deleting a present id removes exactly one task |
| `App.DeleteKeepsIdsUnique` | src/App.js:103 | deleting keeps the ids distinct |
| `App.PrependKeepsUnique` | src/App.js:87 | a task whose id is new can be put in front of a list with distinct ids |
| `App.TaskStore.constructor` | src/App.js:34 | the list starts as the loaded list, with no toast |
| `App.TaskStore.SaveTask` | src/App.js:78-97 | the list becomes the save update of the old list, the toast says created or updated, distinct ids stay distinct, and the payload is stored |
| `App.TaskStore.DeleteTask` | src/App.js:100-105 | unconfirmed, nothing changes; confirmed, the list becomes the delete update, no task has the id, the toast says deleted, and distinct ids stay distinct |

## Left out

- Loading and saving the list in `localStorage`, and the JSON seed list
  (`src/App.js:12-19`, `src/App.js:53-62`): browser storage is I/O. The
  `TaskStore` constructor takes the loaded list as a parameter.
- `window.confirm` in `handleDeleteTask` is I/O; its answer is the
  `confirmed` parameter of `App.TaskStore.DeleteTask`.
- The row key drawn from `crypto.randomUUID` or `Date.now() + Math.random()`
  is randomness; it is the `cid` parameter of `LoadEditor.AddWorkload` and
  the `keys` parameter of `TaskModal.WithRowKeys`.
- The toast timer, the modal's open and closed state, `openCreate`,
  `openEdit`, the `info` banner the dialog clears in `setField`, and all
  rendering: display state with no bearing on the list.
- React's scheduling of state updates and effects: each updater is modelled
  as applied once to the state it receives. The toast of `handleSaveTask`
  is shown from inside the updater; the model sets it with the list. The
  re-clamp effect (`src/components/LoadEditor.js:93-108`) lists
  `onAdjusted` among its dependencies, which the dialog passes as a new
  function on each render, and its updater always returns a new array; so
  while the range is usable the effect may run again after every render.
  The model runs it once.
- `src/components/Table.js` and `src/api/taskapi.js` are not part of this
  model.
- App.NextTaskId: ids are modelled as unbounded integers and `maxId + 1`
  as exact integer addition. In JavaScript the sum is a double, exact only
  while `maxId` is at most `Number.MAX_SAFE_INTEGER` (2^53 - 1); from 2^53
  on it can round back to `maxId`, so the next id repeats the largest one.
  `App.NextTaskIdIsExact` and `App.SaveKeepsIdsSafe` give the bound under
  which the model's sum is JavaScript's.
- App.NextTaskIdIsFresh: holds in JavaScript only for lists whose ids are
  at most `Number.MAX_SAFE_INTEGER` (see `App.NextTaskId`).
- App.SaveCreates: the new id is fresh in JavaScript only under the same
  bound.
- App.SaveKeepsIdsUnique: distinct ids stay distinct in JavaScript only
  under the same bound.
- App.CreatedIdsAreConsecutive: the step of one is exact in JavaScript only
  while the largest id is below `Number.MAX_SAFE_INTEGER`, one less than the
  freshness bound: from a largest id of 2^53 - 1 the created id is 2^53, and
  the next sum 2^53 + 1 rounds back to 2^53 (`App.CreatedIdsStayExact`).
- App.TaskStore.SaveTask: its distinct-ids promise holds in JavaScript only
  under the same bound.
- Task ids that are strings of digits, or numbers that are not integers:
  `Number(t.id)` would turn them into finite numbers. A non-numeric id is
  modelled as never finite, and ids compare by structural equality, which is
  `===` for numbers, `null` and strings.
- Values that are not strings in date fields: a workload date is either a
  string or absent (`undefined`/`null`); task dates and the task name are
  always strings.
- JavaScript compares strings by UTF-16 code units; the model compares code
  points. The two orders differ only on characters outside the Basic
  Multilingual Plane, which no valid date contains.
- `JsDate.FieldsOfTime` models the UTC getters only for times from
  0000-01-01 on; before that it returns fields that name no day. Every
  time value of a pattern match with a year from 0100 on, and every
  two-digit year after `Date.UTC` moves it to 1900 and later, is in range.
- `Date.UTC` is modelled for whole-number arguments on whole days only. The
  pattern only lets through four-digit years and two-digit months and days,
  far inside the range where the time value stays finite.
- The end of `normalizeWorkload` (`src/components/LoadEditor.js:47`) fixes a
  reversed pair once more after clamping. `LoadEditor.ClampMonotone` shows
  that clamping keeps the pair in order, so that branch is never taken. The
  method keeps it for fidelity.
