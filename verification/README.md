# TaskFlow task list, modelled in Dafny

TaskFlow is a browser to-do list. It keeps an ordered list of tasks. Each
task has an identity, a text, a completion flag, a category, a priority, an
optional due date (`YYYY-MM-DD`, or empty) and a creation stamp. The user
adds, deletes, toggles, edits and clears tasks, and can sort them by due
date. The list is saved to one browser storage slot after every change
except the sort. What is shown is the list narrowed by a filter mode and a
case-insensitive text search. A summary shows totals and a completion
percentage, and a small classifier picks a weather icon for a forecast code.

The model is functional. A `Task` is an immutable datatype, the list is a
`seq<Task>`, and every operation is a pure function from the old list to
the new one. Browser inputs become parameters:

- the form fields;
- the clock readings `Date.now()` and `new Date().toISOString()`;
- the answers to the `alert`, `prompt` and `confirm` dialogs.

Modules, following the structure of `app.js`:

- `Options`, `Seqs`: an option type, and order-preserving filtering, counting and subsequences.
- `Text`: JavaScript `trim`, `toLowerCase` (ASCII letters), `includes` and string order.
- `Dates`: for `YYYY-MM-DD` strings, string order is calendar order.
- `Tasks`: the task record and the well-formedness invariant (distinct identities, trimmed non-blank texts).
- `TaskCollection`: `addTask`, `deleteTask`, `toggleComplete`, `editTask` and `clearCompleted`.
- `DueDateSort`: `sortByDate`, its comparator, and a stable insertion sort.
- `Query`: `getFilteredTasks`.
- `Stats`: the arithmetic of `updateStats`.
- `Weather`: `getWeatherEmoji`.
- `App`: the session state (list, filter, search and storage slot) and one step per user action.

Points where the code's behaviour is easy to misread:

- Identities are `Date.now()` readings (app.js:116), which can repeat. No
  operation assumes they are unique, and
  `TaskCollection.AddTaskCanDuplicateIds` shows two tasks sharing one.
  Well-formedness is preserved only when each added identity is fresh.
- `JSON.parse` at app.js:71 is unguarded, so start-up is modelled only from
  a list of tasks.
- The comparator at app.js:169 leaves the order of dateless tasks open (see
  Findings).
- `clearCompleted` asks for confirmation itself (app.js:160), so the answer
  is a parameter.

## Model

| member | source | states |
|---|---|---|
| TaskCollection.AddTask | app.js:111-129 | a blank input leaves the list unchanged and raises the "Enter any task...." alert; otherwise exactly one uncompleted task with the trimmed text and the form's category, priority, due date, id and stamp goes in front of the unchanged old list |
| TaskCollection.AddTaskPreservesWellFormed | app.js:111-129 | adding under a fresh identity keeps identities distinct and texts trimmed and non-blank |
| TaskCollection.AddTaskCanDuplicateIds | app.js:111-125 | whatever the list, two successful adds stamped with the same clock reading leave two tasks with one identity |
| TaskCollection.DeleteTask | app.js:131-135 | the result keeps, in order, exactly the tasks whose identity differs from `id`; its length drops by the number of tasks carrying `id` |
| TaskCollection.DeleteTaskUnique | app.js:131-135 | any order-preserving removal of exactly the tasks carrying `id` equals the delete |
| TaskCollection.DeleteTaskIdempotent | app.js:131-135 | deleting twice is deleting once |
| TaskCollection.DeleteAbsentTask | app.js:131-135 | deleting an identity no task has changes nothing |
| TaskCollection.DeleteUndoesAdd | app.js:111-135 | deleting the identity just added under a fresh identity restores the old list |
| TaskCollection.DeleteTaskPreservesWellFormed | app.js:131-135 | deletion keeps the list well-formed |
| TaskCollection.ToggleComplete | app.js:137-144 | same length; the completion flag flips exactly on the tasks carrying `id`; no other field of any task changes |
| TaskCollection.ToggleTwice | app.js:137-144 | toggling twice restores the list |
| TaskCollection.ToggleAbsentTask | app.js:137-144 | toggling an absent identity changes nothing |
| TaskCollection.ToggleCompletePreservesWellFormed | app.js:137-144 | toggling keeps the list well-formed |
| TaskCollection.FindIndex | app.js:147-148 | no position exactly when no task has `id`; otherwise a position holding `id` with no earlier one |
| TaskCollection.FindIndexIsFirst | app.js:147 | the first position carrying `id` is the one found |
| TaskCollection.IsUsableReply | app.js:151 | the prompt's answer is usable exactly when it was not cancelled and holds a non-whitespace character |
| TaskCollection.EditTask | app.js:146-157 | same length, only texts change, any changed text is trimmed and non-blank; an absent identity, a cancelled prompt or a blank reply leaves the list unchanged |
| TaskCollection.EditTaskChangesFirstMatch | app.js:147-153 | with a usable reply, the first task carrying `id` gets the trimmed reply and every other task is untouched |
| TaskCollection.EditTaskPreservesWellFormed | app.js:146-157 | editing keeps the list well-formed |
| TaskCollection.ClearCompleted | app.js:159-165 | declined: unchanged; confirmed: keeps, in order, exactly the uncompleted tasks |
| TaskCollection.ClearCompletedIdempotent | app.js:159-165 | a second confirmed clear changes nothing |
| TaskCollection.ClearCompletedPreservesWellFormed | app.js:159-165 | clearing keeps the list well-formed |
| DueDateSort.DateSign | app.js:171 | the sign of the date difference: zero exactly for equal dates, negative exactly when the first date is strictly earlier, positive exactly when it is strictly later |
| DueDateSort.AsWrittenCompare | app.js:168-172 | the written comparator returns 1 for a dateless first task, -1 for a dateless second task, or the sign of the date difference; when either task has a date its sign agrees with "dated first, earlier date first", and it is zero only for equal dates |
| DueDateSort.AsWrittenCompareInconsistent | app.js:169 | the written comparator ranks each of two dateless tasks above the other, and a dateless task above itself |
| DueDateSort.DueCompare | app.js:168-172 | the corrected comparator's sign agrees with "dated before dateless, earlier date first"; it is zero exactly for two dateless tasks or equal dates |
| DueDateSort.DueCompareAntisymmetric | app.js:168-172 | the corrected comparator is antisymmetric |
| DueDateSort.DueCompareAgreesWhenDated | app.js:168-172 | the correction agrees with the written comparator whenever either task has a date |
| DueDateSort.DueLeTotal | app.js:168-172 | any two tasks are comparable |
| DueDateSort.DueLeTransitive | app.js:168-172 | the order is transitive |
| DueDateSort.Insert | app.js:168 | inserting into a sorted list gives a sorted permutation of list plus task |
| DueDateSort.SortByDate | app.js:167-174 | the result is a permutation of the input, sorted: every dated task before every dateless one, dates in ascending order |
| DueDateSort.SortKeepsUndatedOrder | app.js:167-174 | dateless tasks keep their relative order |
| DueDateSort.InsertKeepsUndatedOrder | app.js:168 | insertion keeps the order of dateless tasks and puts a dateless task before them |
| DueDateSort.SortPreservesWellFormed | app.js:167-174 | sorting keeps the list well-formed |
| DueDateSort.SortExampleShape | app.js:167-174 | dateless `a`, dated `b`, dateless `c`, dated `d` with `d` earlier than `b` sort to `d, b, a, c` |
| DueDateSort.SortExample | app.js:167-174 | due dates none, 2024-01-05, none, 2024-01-01 sort to 2024-01-01, 2024-01-05, then the two dateless tasks in their old order |
| Dates.LexLeIsNumeric | app.js:171 | for digit strings of one shape, string order is numeric order |
| Dates.DateOrderIsChronological | app.js:171 | for `YYYY-MM-DD` dates, string order is (year, month, day) order, which the comparator's date subtraction uses |
| Dates.NumeralOfDate | app.js:171 | a date's digits read as one number are year, month and day in that order of weight |
| Query.ApplyMode | app.js:179-189 | the mode filters applied one after another equal one filter by the mode's test |
| Query.GetFilteredTasks | app.js:176-196 | the view is, in list order, exactly the tasks the mode admits (all, active, completed, high priority, else category) whose lower-cased text contains the lower-cased search; an empty search admits all |
| Query.SearchMatchesScan | app.js:191-194 | the scanning search test agrees with "occurs at some position" |
| Query.SearchCaseInsensitive | app.js:191-194 | lower-casing the search before filtering, as the search box does, does not change the view |
| Query.ActiveView | app.js:180 | mode `active` with no search shows exactly the uncompleted tasks |
| Query.HighIsPriorityNotCategory | app.js:181-187 | mode `high` selects by priority, never as a category name |
| Query.EmptyCategoryView | app.js:186-188 | a category no task has shows nothing |
| Query.SearchExample | app.js:191-194 | searching `team` in "team sync" and "groceries" shows only the first |
| Stats.ComputeStats | app.js:290-294 | total is the list length; completed and active count the list by the flag and sum to total; the rate is 0 for an empty list, otherwise the percentage rounded to nearest with halves up, between 0 and 100 |
| Stats.RoundedPercent | app.js:294 | the rounded percentage lies within half a point of the exact one |
| Stats.ZeroPercent | app.js:294 | nothing completed is 0% |
| Stats.EmptyStats | app.js:290-294 | the empty list shows all zeros |
| Stats.OneOfThreeStats | app.js:290-294 | one completed task of three gives a 33% rate |
| Stats.StatsAfterClearCompleted | app.js:290-294 | after a confirmed clear, the total is the old active count, nothing is completed and the rate is 0 |
| Weather.WeatherEmoji | app.js:369-375 | the icon is one of the five |
| Weather.WeatherBands | app.js:369-375 | each icon is shown for exactly its band: 0, other codes up to 3 (negatives included), 4-67, 68-77, above 77 |
| Weather.WeatherMonotone | app.js:369-375 | away from code 0, a higher code never gets an earlier band's icon |
| Text.Trim | app.js:112 | the result is the input with only whitespace dropped: everything before it is the leading whitespace and everything after it is whitespace; it is blank exactly when the input is all whitespace, otherwise it starts and ends with non-whitespace |
| Text.TrimStart | app.js:112 | drops exactly the leading whitespace |
| Text.TrimEnd | app.js:112 | drops exactly the trailing whitespace |
| Text.TrimIdempotent | app.js:112 | trimming twice is trimming once |
| Text.ToLower | app.js:85 | same length; no upper-case letter remains; each capital becomes its small letter (code + 32) and everything else is kept |
| Text.ToLowerFixedPoint | app.js:192 | a string without capitals is left unchanged |
| Text.ToLowerIdempotent | app.js:192 | lower-casing twice is lower-casing once |
| Text.ContainsIff | app.js:193 | the scan finds the needle exactly when it occurs at some position |
| Text.LexLeTotal | app.js:171 | string order is total |
| Text.LexLeTransitive | app.js:171 | string order is transitive |
| Text.LexLeAntisymmetric | app.js:171 | string order is antisymmetric |
| Seqs.Filter | app.js:132 | the filter result is an order-preserving subsequence holding exactly the elements that pass |
| Seqs.FilterUnique | app.js:132 | any subsequence of passing elements as long as the pass count is the filter result |
| Seqs.FilterCompose | app.js:179-193 | two filters in a row are one filter by both tests |
| App.Init | app.js:69-72 | start-up: the list is the stored list, the mode is `all` and the search is empty |
| App.Step | app.js:78-174 | every list change except the sort is written to storage; the sort rearranges the list without writing; only filter and search actions change the filter and the search, which is stored lower-cased |
| App.StepKeepsSynced | app.js:111-165 | every action except the sort leaves storage equal to the list |
| App.SortLostOnReload | app.js:167-174 | reloading after a sort gives back the order from before the sort |
| App.SearchViewIgnoresCase | app.js:84-87 | the view after typing a search is the view for the search as typed |
| App.SummaryIgnoresView | app.js:290-294 | changing the filter or the search never changes the summary |
| App.StepPreservesWellFormed | app.js:111-174 | every action keeps the list well-formed, provided each added identity is fresh |

## Left out

- Rendering and event wiring (`render`, `renderTask`, `renderEmptyState`, `resetForm`, `setupEvents`) have no logic to state. The action that each event triggers is modelled in `App.Step`.
- Persistence is modelled as the storage slot holding a list of tasks. JSON encoding, the `localStorage` calls and `exportTasks` are browser library code. Malformed stored text is not modelled: the unguarded `JSON.parse` at app.js:71 throws on it.
- The quote, weather and news widgets (`loadDailyQuote`, `loadWeather`, `loadDevNews`) are network I/O. Only `getWeatherEmoji` is modelled. A weather code that is not a number is out of scope.
- Dialogs are parameters: the alert is a result, the edit prompt's answer is an `Option`, and the confirmation is a `bool`.
- Timestamps are parameters: the `Date.now()` identity and the `toISOString()` stamp.
- Stats.ComputeStats: `Math.round` of a floating-point quotient is modelled as exact rounding of the rational percentage. Float representation error at exact halves is not modelled.
- Text.ToLower: lower-cases only ASCII letters. JavaScript's full Unicode case mapping is not modelled, so searches involving non-ASCII letters are outside the model.
- DueDateSort.AsWrittenCompare: the millisecond difference `new Date(a.dueDate) - new Date(b.dueDate)` at app.js:171 is modelled by its sign (`DueDateSort.DateSign`), which is all `Array.prototype.sort` reads from a comparator.
- DueDateSort.SortByDate: sorts with the corrected comparator, not the written one. The order the written comparator leaves dateless tasks in depends on the engine's sort routine and is not modelled.
- Dates are compared as strings. Dates.DateOrderIsChronological ties this to calendar order for `YYYY-MM-DD` strings. Strings that `new Date` cannot parse, which make the comparator return NaN, and day numbers a month does not have are outside the model.
- The category and priority values are arbitrary strings. The code never restricts them to the form's choices.

## Findings

| source | as written | input that shows it | evidently intended | confidence | as-written member | corrected member |
|---|---|---|---|---|---|---|
| app.js:169 | `if (!a.dueDate) return 1` returns 1 when both tasks lack a date, so of two dateless tasks each compares greater than the other | two tasks with due date `""`: compare(a, b) = 1 and compare(b, a) = 1 | two dateless tasks compare equal, so a stable sort keeps their order (dated first, dateless after, in their old order) | medium, not executed | DueDateSort.AsWrittenCompare, DueDateSort.AsWrittenCompareInconsistent | DueDateSort.DueCompare (with DueDateSort.DueCompareAntisymmetric and DueDateSort.SortKeepsUndatedOrder) |
