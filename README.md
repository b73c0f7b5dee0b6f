# Film production manager: a verified model of its data core

The application keeps a list of film projects. Each project holds three record
lists: shooting schedules, staff members and actors. The user opens one project at a
time. Forms add or edit records, buttons delete them, and each list view has a
free-text search box. Schedules are also shown on a month calendar of 42 days,
with at most three entries per day and a "+n" marker for the rest.

This Dafny project models that core and proves what it promises:

- `lists.dfy` (module `Lists`): the array operations the handlers use.
  `filter`, `find` and `findIndex` by identifier, replacing the record found under
  an identifier, appending, and removing by identifier. Each comes with the lemmas
  that relate them: find after a save or a delete, identifiers staying unique,
  and the length after a delete.
- `text.dfy` (module `Text`): the string operations used by search and by the
  date key. These are `toLowerCase` (ASCII letters), `includes`, `join`, `String(n)`
  and `padStart(2, '0')`. A digit parser inverts the decimal text.
- `records.dfy` (module `Records`): the schedule, staff and actor records and the
  values their forms supply. Also the search predicate of the three list views
  (`[fields].filter(Boolean).join(' ').toLowerCase().includes(query)`) and the
  rule that decides which image a saved actor keeps.
- `dates.dfy` (module `Dates`): civil dates the way the JavaScript `Date` object
  shows them (year, 0-based month, day). It adds a day count, the weekday
  (`getDay`), moving by whole days (`setDate(getDate() + k)`), and `formatDate`.
  `formatDate` is proved injective by reading its key back.
- `calendar.dfy` (module `Calendar`): the 42-iteration loop of
  `renderScheduleCalendar` as a method with loop invariants. It is proved against
  the predicate `IsGrid`. Lemmas about any grid give the Sunday start, full
  coverage of the month, the other-month flag, unique day keys, each day's bucket
  and its three-plus-"+n" display, and the today marker.
- `store.dfy` (module `Store`): `Project` and `ProjectStore` as classes whose
  methods update fields in place. These are the form handlers and delete buttons
  for projects, schedules, staff and actors. The open project is the one whose id
  equals `currentProjectId`, and a handler that finds none does nothing.

The clock, the file reader and the form fields become parameters. The clock
supplies `Date.now()` identifiers, the creation timestamp and the reading of
"today" in `isTodayDate`. The file reader supplies the data URL of an uploaded
image. The form fields supply the submitted values.

## Model

| member | source | states |
|---|---|---|
| Lists.Filter | script.js:318-330 | the result holds exactly the input's elements that pass the test, each as often as in the input, and is never longer |
| Lists.FilterIsSubsequence | script.js:318-330 | filtering keeps the stored order: the result is a subsequence of the input |
| Lists.FilterKeepsAll | script.js:318-330 | when every element passes, the filter returns the list unchanged |
| Lists.IndexOfId | script.js:529 | findIndex is -1 exactly when no record holds the id, and otherwise the first index holding it |
| Lists.FindById | script.js:786 | find returns a record of the list that holds the id, and None only when no record holds it |
| Lists.FindAgreesWithIndex | script.js:786-801 | find and findIndex agree: find returns the record at the index findIndex returns |
| Lists.ReplaceById | script.js:529-532 | the list keeps its length; only the first record holding the id changes; an absent id changes nothing |
| Lists.RemoveById | script.js:555 | the filter keeps exactly the records with another id, each as often as before, in stored order |
| Lists.FindAfterUpsert | script.js:528-535 | after a save of an existing id or a free new one, looking that id up yields the saved record |
| Lists.UpsertKeepsUniqueIds | script.js:528-535 | a save keeps ids unique when an edit keeps the id and an append uses a free one |
| Lists.RemoveLength | script.js:555 | with unique ids, a delete removes exactly one record if the id is present and none otherwise |
| Lists.RemoveAbsentId | script.js:555 | deleting an id no record holds leaves the list as it was |
| Lists.FindAfterReplace | script.js:529-532 | after an edit, looking the id up yields the new record |
| Lists.FindAfterAppend | script.js:534 | after appending a record with a free id, looking that id up yields it |
| Lists.FindAfterRemove | script.js:555 | after a delete, nothing is found under the deleted id |
| Lists.IndexOfIdIsFirst | script.js:529 | findIndex returns i exactly when i holds the id and no earlier index does |
| Lists.AppendKeepsUniqueIds | script.js:534 | appending a record with a free id keeps ids unique |
| Lists.ReplaceKeepsUniqueIds | script.js:531 | replacing a record by one with the same id keeps ids unique |
| Lists.RemoveKeepsUniqueIds | script.js:555 | deleting by id keeps ids unique |
| Text.Lower | script.js:328 | toLowerCase keeps the length and lower-cases each character on its own |
| Text.ContainsIff | script.js:329 | includes holds exactly when the query occurs at some position of the text |
| Text.ContainsEmpty | script.js:329 | every text includes the empty query |
| Text.JoinContainsPart | script.js:326-329 | a query found in one lower-cased part is found in the lower-cased join |
| Text.NatText | script.js:647-648 | String(n) is a non-empty string of digits with no leading zero |
| Text.ParseNatText | script.js:647-648 | reading the decimal text of n back gives n |
| Text.NatTextLength | script.js:646-648 | String(n) has 1 digit below 10, 2 below 100, 4 for 1000..9999 |
| Text.Pad2RoundTrip | script.js:647-648 | for 0..99, padStart(2, '0') gives two digits that read back as the number |
| Records.Search | script.js:316-330 | an empty query keeps every record; otherwise exactly the matching records stay, each as often as stored, in stored order |
| Records.EmptyQueryKeepsAll | script.js:317-318 | the guard before the filter changes nothing: filtering on "" would keep every record too |
| Records.FieldMatch | script.js:319-329 | a non-empty query found in any one field makes the record match |
| Records.BlankRecordNeverMatches | script.js:326-329 | a non-empty query never matches a record whose fields are all blank |
| Records.ScheduleFieldHit | script.js:316-330 | a schedule whose title, location, description, date or time contains the query is listed |
| Records.StaffFieldHit | script.js:366-380 | a staff member whose name, role, contact or email contains the query is listed |
| Records.ActorFieldHit | script.js:408-422 | an actor whose name, role, contact or email contains the query is listed |
| Records.StoredImage | script.js:797 | the saved image is the supplied data if non-empty, else the existing actor's image, else "" |
| Records.ImagePrecedence | script.js:814-821 | on either path an uploaded image wins, else the existing actor's image, else "" |
| Records.EditWithoutUploadKeepsImage | script.js:786-804 | editing an actor with no new file keeps the image at the edited position |
| Records.UploadReplacesImage | script.js:814-818 | saving with a new file stores that file's data URL |
| Dates.Weekday | script.js:611 | getDay is a weekday number from 0 (Sunday) to 6 |
| Dates.NextDayNumber | script.js:638 | stepping one day forward gives a valid date one day later |
| Dates.PrevDayNumber | script.js:611 | stepping one day back gives a valid date one day earlier |
| Dates.AddDays | script.js:610-611 | moving by k days gives a valid date exactly k days away |
| Dates.DayNumberInjective | script.js:617-638 | two valid dates with the same day count are the same date |
| Dates.SameMonthOtherYearFarApart | script.js:620 | two dates with the same month number in different years are over 300 days apart |
| Dates.YearTextRoundTrip | script.js:646-649 | the year text (with a minus sign for a negative year) reads back as the year |
| Dates.FormatDateRoundTrip | script.js:645-650 | parsing the formatDate key of a valid date gives the date back |
| Dates.FormatDateInjective | script.js:645-650 | formatDate never gives two different dates the same key |
| Dates.DistinctDaysDistinctKeys | script.js:645-650 | days with different day counts get different keys |
| Dates.FormatDateFullDate | script.js:645-650 | for years 1000..9999 the key has the YYYY-MM-DD shape: 10 characters, dashes at 4 and 7 |
| Dates.March2024StartsOnFriday | script.js:611 | getDay of 1 March 2024 is 5 (Friday) |
| Dates.Epoch1970IsThursday | script.js:611 | getDay of 1 January 1970 is 4 (Thursday) |
| Calendar.DayEvents | script.js:619 | a day's bucket holds exactly the schedules dated with its key, each as often as stored, in stored order |
| Calendar.DayDisplay | script.js:627-633 | the first three schedules are shown (all of them when fewer), and "+n" appears exactly when there are more than three, with n = count - 3 |
| Calendar.IsToday | script.js:653-658 | a day is today exactly when day, month and year all match |
| Calendar.RenderCalendar | script.js:597-642 | the loop builds 42 cells for consecutive valid days from the grid start of the constructed year (1900 + year for a year 0..99), each the cell its day calls for |
| Calendar.GridFirstCell | script.js:608-611 | the first cell is a Sunday, on the 1st of the month (of the constructed year) or fewer than 7 days before it |
| Calendar.GridShowsWholeMonth | script.js:608-617 | every day of the shown month of the constructed year is in the grid, day d at cell weekday(1st) + d - 1 |
| Calendar.GridOtherMonthFlags | script.js:620 | a cell is marked other-month exactly when its day is outside the shown month of the constructed year |
| Calendar.GridKeysDistinct | script.js:618 | no two cells share a date key |
| Calendar.GridCellEvents | script.js:618-633 | each cell's bucket is the filter of the schedules by its key (each as often as stored), shows at most three and counts the rest |
| Calendar.GridToday | script.js:621 | only the cell whose date is today is marked today |
| Calendar.GridStartIsSundayBefore | script.js:608-611 | moving the 1st back by its weekday lands on a Sunday 0..6 days earlier |
| Calendar.OtherMonthFlagExact | script.js:620 | comparing only the month number is enough: a grid day with the shown month's number is in the shown year |
| Calendar.GridCoversMonth | script.js:608-617 | six weeks always cover the month: day d sits at an index below 42 |
| Calendar.March2024Example | script.js:617-619 | a schedule dated 2024-03-15 falls in cell 19 of the March 2024 grid and in no other day's bucket |
| Calendar.March15Key | script.js:645-650 | formatDate of 15 March 2024 is "2024-03-15" |
| Store.Project.constructor | script.js:183-196 | a new project has the form's values, its creation time and empty schedule, staff and actor lists |
| Store.ProjectStore.constructor | script.js:2-3 | the store starts with the loaded projects and no open project |
| Store.ProjectStore.CurrentProject | script.js:515 | the open project is a stored project whose id is currentProjectId; none exactly when nothing is open or no stored project holds that id |
| Store.ProjectStore.OpenProject | script.js:234-235 | opening records the id, even when no project holds it |
| Store.ProjectStore.SubmitProject | script.js:178-204 | as written: a new project with the fresh id is appended, and nothing else changes, even when editing |
| Store.ProjectStore.SaveProject | script.js:138-154 | corrected save: an edit updates name, description and dates of the project in place; otherwise a project is appended |
| Store.ProjectStore.DeleteProject | script.js:157-175 | an unknown id changes nothing; otherwise the project is removed and the open view closes if it showed it |
| Store.ProjectStore.SubmitSchedule | script.js:512-541 | the open project's schedules become the saved list (edit in place or append); no other project changes |
| Store.ProjectStore.DeleteSchedule | script.js:549-559 | the open project's schedules lose every one with the id; no other project changes |
| Store.ProjectStore.SubmitStaff | script.js:687-714 | the open project's staff become the saved list (edit in place or append); no other project changes |
| Store.ProjectStore.DeleteStaff | script.js:722-731 | the open project's staff lose every member with the id; no other project changes |
| Store.ProjectStore.SubmitActor | script.js:779-823 | the open project's actors get the saved actor with the image rule applied; no other project changes |
| Store.ProjectStore.DeleteActor | script.js:831-840 | the open project's actors lose every one with the id; no other project changes |
| Store.EditProjectAsWritten | script.js:138-204 | editing through the form adds a project, and the edited project keeps its old name |
| Store.EditProjectCorrected | script.js:138-204 | with the corrected save, editing keeps the list's length, and the project takes the form's values |
| Store.SaveScheduleKeepsIds | script.js:518-535 | saving a schedule keeps ids unique, and the saved schedule is found under its id |
| Store.SaveStaffKeepsIds | script.js:693-709 | saving a staff member keeps ids unique, and the saved member is found under its id |
| Store.SaveActorKeepsIds | script.js:785-807 | saving an actor keeps ids unique, and the saved actor is found under its id |
| Store.EditOfMissingIdChangesNothing | script.js:529-532 | an edit whose id no record holds leaves the list unchanged |
| Store.DeleteRecordFacts | script.js:555 | a delete keeps ids unique, leaves nothing under the id, and removes one record at most |

## Left out

- Rendering: HTML building, `escapeHtml`, modals, tab and view switching, focus and scrolling. These have no state the data core depends on.
- `saveProjects` and the load from `localStorage`. Serialisation through JSON is I/O. The store starts from the loaded project list.
- The `confirm` dialog before each delete is taken as confirmed. The cancelled path returns before any change. The `alert` messages are left out.
- `FileReader`: the data URL it produces is the `upload` parameter of `SubmitActor`. The model saves synchronously. The source saves in the reader's callback, after the existing actor has been looked up.
- `Date.now()` ids, `new Date().toISOString()` and the clock reading in `isTodayDate` are parameters. Fresh ids are not assumed unique. The uniqueness lemmas take that as a hypothesis.
- Time zones, daylight saving and the range limits of the JavaScript `Date` object. Dates are proleptic Gregorian civil dates. The one year rule of the `Date` constructor that the calendar meets is modelled: `new Date(year, month, 1)` (script.js:608) reads a year from 0 to 99 as 1900 + year (`Dates.FullYear`), so such a shown year gets the grid of 1900 + year.
- `toLowerCase` and `trim` beyond ASCII. `Lower` maps only A-Z. The search query is taken as already trimmed and lower-cased, as the input handlers at script.js:49, 79 and 95 leave it.
- The sort of the schedule list by `new Date(date + 'T' + time)` (script.js:339-343). It depends on the engine's date-string parser, including invalid dates compared as NaN. The order of a search result is proved to be the stored order, before that sort.
- `changeMonth`, `goToToday`, `openScheduleModalFromDate` and the modal-opening functions only move the shown month or fill form fields. The calendar takes the shown year and month as inputs.
- The budget and expense features (`totalBudget`, `expenses`, `renderBudgetSummary`, `renderExpenseList`, `handleExpenseSubmit`). They are referenced but not defined in script.js, so `Project` has no budget fields.
- `lastDay` (script.js:609) is computed and never used.

## Findings

| source | as written | input that shows it | evidently intended | confidence | as-written member | corrected member |
|---|---|---|---|---|---|---|
| script.js:178-204 | `handleProjectSubmit` never reads the hidden `projectId` field that `editProject` (script.js:138-154) fills. Every submit appends a new project with a fresh id and empty lists. | Open "edit" on a stored project, change its name, submit. The list grows by one. The edited project keeps its old name. | An edit updates the project's name, description and dates in place and keeps its records, as the other forms do. | not executed | Store.EditProjectAsWritten | Store.EditProjectCorrected |
