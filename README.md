# Productivity dashboard store, in Dafny

This project models the in-memory store of the `ProductivityApp` class of a
single-page productivity dashboard (app.js). The class owns four
collections:

- to-dos `{id, text, completed, priority}`;
- assignments `{id, name, dueDate}`;
- website shortcuts `{id, name, url, icon}`;
- calendar events grouped by "YYYY-MM-DD" date key.

Its ten operations guard their form input, find entries by id, flip, swap or
rewrite fields, push, filter and sort in place. For events they also drop a
date key whose list becomes empty. Two views are computed from the store:

- the 42-cell month grid of `renderCalendar`;
- the 24 hour rows of `renderEventTimeline`.

The model follows the source's own shape:

- `App.ProductivityApp` is a class with `seq`/`map` fields. Its methods
  change them in place, and each `ensures` ties the new state to a pure
  function of the old state.
- The pure functions live in one module per entity (`Todos`, `Assignments`,
  `Websites`, `Events`). The lemmas beside them prove what the source
  promises:
  - toggling and swapping are self-inverse;
  - a swap keeps the multiset of priorities;
  - deletion removes exactly the matching entries and keeps the order of the
    rest;
  - the event lists stay sorted by start time and never empty;
  - creating an event grows the list by one and editing keeps its length.
- The two render loops are methods whose loops are proved to build the view
  functions `Calendar.MonthGrid` and `Timeline.Timeline`. Lemmas then state
  what those views show.
- `Records` holds the array primitives every collection uses: `find`, the
  write to the found entry, `filter` and the stable `sort`.
- `Text` holds the string primitives: `trim`, code-point order, `padStart`
  and `parseInt`.
- `Dates` holds the calendar arithmetic that JavaScript's `Date` performs
  for the grid: day numbers, weekdays, day rollover and the ISO date key.

Form fields are method parameters, untrimmed as the form holds them. The id
`Date.now()` would give is a `freshId` parameter. The object reference the
edit form holds (`currentEditing…`) is an `editing` id. It selects the
first entry with that id, which is the entry `find` handed to the form.

Dragging cannot create duplicate priorities. `reorderTodos` swaps two
priorities, and `Todos.SwapKeepsPriorities` proves that the multiset of
priorities is unchanged. Duplicates come from `saveTodo` instead, which gives
a new to-do the priority `length + 1` even after deletions
(`Todos.DeleteThenAddRepeatsPriority`).

## Model

| member | source | states |
|---|---|---|
| `App.ProductivityApp.constructor` | app.js:3-17 | each collection is the stored snapshot when there is one, otherwise the seed to-dos, assignments and websites, and an empty event map |
| `App.ProductivityApp.SaveTodo` | app.js:158-177 | a text that trims to nothing changes nothing; an edit renames the edited to-do; a create appends one open to-do with priority old length + 1; no other collection changes |
| `App.ProductivityApp.PutTodo` | app.js:162-172 | the edit or the push of `saveTodo` once the text is known to be non-blank |
| `App.ProductivityApp.ToggleTodo` | app.js:179-186 | the new list is `Todos.Toggled` of the old one; no other collection changes |
| `App.ProductivityApp.DeleteTodo` | app.js:188-192 | the new list is the old one without the to-dos carrying the id |
| `App.ProductivityApp.ReorderTodos` | app.js:242-257 | the new list is `Todos.Swapped` of the old one; no other collection changes |
| `App.ProductivityApp.SaveAssignment` | app.js:286-307 | a blank name or empty due date changes nothing; an edit rewrites the edited assignment; a create appends one assignment |
| `App.ProductivityApp.PutAssignment` | app.js:292-302 | the edit or the push of `saveAssignment` once the fields passed the guard |
| `App.ProductivityApp.DeleteAssignment` | app.js:309-313 | the new list is the old one without the assignments carrying the id |
| `App.ProductivityApp.SaveWebsite` | app.js:370-394 | a blank name or URL changes nothing; otherwise the edited website is rewritten or one is appended, with the trimmed fields and `Websites.StoredIcon` as icon |
| `App.ProductivityApp.PutWebsite` | app.js:377-389 | the edit or the push of `saveWebsite` once the fields passed the guard |
| `App.ProductivityApp.DeleteWebsite` | app.js:396-400 | the new list is the old one without the websites carrying the id |
| `App.ProductivityApp.SaveEvent` | app.js:622-662 | the new map is `Events.Saved` of the old one with the trimmed name, location and notes; a well-formed map stays well formed unless an edit names a date without a list |
| `App.ProductivityApp.PutEvent` | app.js:631-656 | creating the date's list when missing, the push or the edit, then the sort, give exactly `Events.Saved` |
| `App.ProductivityApp.DeleteEvent` | app.js:664-676 | the new map is `Events.Deleted` of the old one, and a well-formed map stays well formed |
| `Todos.Toggled` | app.js:179-186 | only the first to-do with the id changes its `completed`; ids, texts, priorities and every other to-do stay; an absent id changes nothing |
| `Todos.ToggleTwice` | app.js:179-186 | toggling the same id twice restores the list |
| `Todos.Renamed` | app.js:162-163 | only the edited to-do's text changes; its id, completion and priority stay |
| `Todos.Swapped` | app.js:242-253 | the two to-dos exchange priorities and nothing else changes; an absent id on either side changes nothing |
| `Todos.SwapTwice` | app.js:242-253 | the same swap twice restores the list |
| `Todos.SwapKeepsPriorities` | app.js:248-253 | the multiset of priorities is the same after a swap |
| `Todos.DeleteThenAddRepeatsPriority` | app.js:169 | deleting the first seed to-do and then adding one gives two to-dos with priority 2 |
| `Todos.ByPriorityOrdered` | app.js:199 | the display is a permutation of the stored to-dos, in ascending priority, with equal priorities in stored order |
| `Todos.ReorderSeed` | app.js:242-257 | swapping the two seed to-dos shows the second one first |
| `Assignments.Reworded` | app.js:292-294 | only the edited assignment takes the new name and due date, and it keeps its id |
| `Assignments.ByDueDateOrdered` | app.js:320 | the display is a permutation of the assignments, and an earlier due date is always shown before a later one |
| `Websites.StoredIcon` | app.js:373-386 | the stored icon is never blank: the trimmed icon, or the globe when only whitespace was typed |
| `Websites.Reworded` | app.js:377-380 | only the edited website takes the new name, URL and icon, and it keeps its id |
| `Events.ByStartTimeOrdered` | app.js:654-656 | the sort keeps the day's events, orders them by start time, and keeps equal start times in their previous order |
| `Events.Redone` | app.js:635-640 | only the edited event takes the new fields, and it keeps its id |
| `Events.Saved` | app.js:622-656 | a blank name, start or end time leaves the map as it is, with no key created; otherwise the date's list holds the old events plus the new one (or the edited ones), sorted by start time; other dates are untouched |
| `Events.SavedLength` | app.js:641-650 | creating grows the date's list by exactly one; editing keeps its length |
| `Events.SavedWellFormed` | app.js:629-656 | saving keeps every list non-empty and sorted, unless an edit names a date with no list |
| `Events.Deleted` | app.js:664-671 | a date without a list is a no-op; otherwise the events with the id are filtered out and the key is dropped when none is left; other dates are untouched |
| `Events.DeletedWellFormed` | app.js:664-671 | deleting keeps every list non-empty and sorted |
| `Events.DeleteLastEvent` | app.js:669-670 | deleting the only event of a date removes the date key |
| `Events.SaveThenDeleteFirstEvent` | app.js:622-671 | adding the first event of a day and deleting it restores the map exactly |
| `Events.SaveTwoEvents` | app.js:642-656 | "Math Class" at 09:00 then "Lunch" at 08:00 leave the day as [Lunch, Math Class] |
| `Records.Find` | app.js:180 | the scan returns the index of the first entry with the id, or none |
| `Records.FirstIndex` | app.js:180 | the index found holds the id and no earlier entry does; when none is found, no entry holds it |
| `Records.UpdateFirst` | app.js:182 | writing to the entry `find` returned changes that entry alone, and nothing when none was found |
| `Records.RemoveIdExact` | app.js:189 | the entries with the id are dropped, every other entry is kept as often as it occurs, and the kept entries stay in order |
| `Records.RemoveAbsentId` | app.js:189 | filtering out an id that no entry has changes nothing |
| `Records.RemoveIdAfterPush` | app.js:171 | a pushed entry with a fresh id is deleted without touching the others |
| `Records.SortBySorted` | app.js:199 | the stable sort is a permutation, ordered by the comparator's key |
| `Records.SortByStable` | app.js:199 | entries with equal keys keep their relative order |
| `Text.TrimShape` | app.js:159 | the trimmed text is a slice of the input with only whitespace around it, and it neither starts nor ends with whitespace |
| `Text.TrimBlank` | app.js:160 | the trimmed text is empty exactly when the input is all whitespace |
| `Text.TrimIdempotent` | app.js:159 | trimming a trimmed text changes nothing |
| `Text.PadDigitsValue` | app.js:550 | the padded numeral reads back as the number |
| `Text.ParseIntDecimal` | app.js:552 | `parseInt` reads a numeral of decimal digits as its value |
| `Timeline.Timeline` | app.js:549-554 | there are exactly 24 rows, one per hour 0..23 |
| `Timeline.TimelineRow` | app.js:549-554 | row `h` is labelled "HH:00" and holds exactly the day's events whose start hour parses to `h`, each as often as the day has it, in the day's order |
| `Timeline.EventRows` | app.js:551-554 | each event is in the row of its start hour and in no other; an event whose hour does not parse, or falls outside 0..23, is in no row |
| `Timeline.HourOfTime` | app.js:552 | a start time "HH:MM" has hour HH |
| `Timeline.LabelHour` | app.js:550-552 | an event whose start time is a row's label lands in that row |
| `Timeline.NineFifteen` | app.js:549-554 | an event at 09:15 is listed under 09:00 and under no other hour |
| `Timeline.RenderEventTimeline` | app.js:542-554 | the loop over the 24 hours builds exactly `Timeline` of the selected date's events |
| `Calendar.DayCell` | app.js:486-499 | a cell's key is the date's ISO key; it is in the current month exactly when the months agree, and it is today exactly when the date is today; it previews the names of the day's first min(2, count) events in order; "+N" has N = count − 2, shown only when count > 2 |
| `Calendar.MonthGrid` | app.js:482 | the grid has exactly 42 cells |
| `Calendar.GridStartSunday` | app.js:469-470 | the grid starts on a Sunday at most six days before the first of the month |
| `Calendar.August2025Start` | app.js:469-470 | the grid of August 2025 starts on Sunday 2025-07-27 |
| `Calendar.GridConsecutive` | app.js:482-484 | the 42 cells are consecutive days, and cell `i` falls on weekday `i % 7` |
| `Calendar.GridMonthDays` | app.js:466-484 | cell `firstDay.getDay() + k` is day `k + 1` of the month shown, for every day of the month |
| `Calendar.GridCurrentMonth` | app.js:486 | a cell is in the current month exactly when it lies in the run of that month's days |
| `Calendar.RenderCalendar` | app.js:459-503 | the loop over the 42 cells builds exactly `MonthGrid` |
| `Calendar.TwoDigitYear` | app.js:466 | `new Date(year, month, 1)` reads a year 0..99 as a year of the 1900s: the grid for year 25 is the grid for 1925 |
| `Dates.DayNumberNextDay` | app.js:483-484 | the day rollover of `setDate` advances the day number by exactly one |
| `Dates.DayNumberAddDays` | app.js:483-484 | moving `n` days forward advances the day number by `n` |
| `Dates.SubDaysWeekday` | app.js:469-470 | moving back by a date's own weekday lands on a Sunday |
| `Dates.WeekdayAddDays` | app.js:483-484 | moving `n` days forward moves the weekday by `n` modulo 7 |
| `Dates.EpochThursday` | app.js:469 | `getDay()` counts 1970-01-01, day number 0, as a Thursday |
| `Dates.AugustFirst2025Friday` | app.js:469 | `getDay()` of 2025-08-01 is Friday |
| `Dates.IsoDateFields` | app.js:488 | for years 0..9999 the key is "YYYY-MM-DD", and its fields read back as the date |
| `Dates.IsoDateInjective` | app.js:488 | distinct dates in years 0..9999 have distinct keys |

## Left out

- Persistence: `loadFromStorage` and `saveToStorage` (JSON in
  `localStorage`) are browser I/O. A stored snapshot is an `Option`
  argument of the constructor. A stored JSON value that is falsy (`null`,
  `0`, `""`) also falls back to the seed in the source; the model treats
  such a value as no snapshot.
- Writing back to storage after each operation is not modelled. Neither is
  re-rendering, closing the modals or focusing fields.
- The DOM, HTML templating, modals, click and drag-and-drop wiring are UI
  plumbing. Form reads are method parameters, and `parseInt` of the
  dragged ids is the caller's.
- The schedule image upload through `FileReader`, and the clock display
  `updateTime` with `setInterval`, are asynchronous I/O and clock reads.
- `Date.now()` ids are the `freshId` parameter. The source does not check
  freshness, so neither do the methods; only `Records.RemoveIdAfterPush`
  and `Events.SaveThenDeleteFirstEvent` assume it.
- The overdue marker of `renderAssignments` reads the clock, and
  `toLocaleDateString` is locale formatting; neither is modelled.
- `App.ProductivityApp.SaveTodo` and its siblings: the edit form's object
  reference is modelled as the first entry with its id. The source writes
  to the object itself, so it could also write to an entry already deleted
  from the list. The model then leaves the list unchanged, which is the
  same outcome.
- `Calendar.DayCell`: the key is built from the local calendar date.
  `toISOString` converts to UTC first, which moves the key by a day in
  time zones east of UTC. JavaScript's `Date` range limit (±8.64e15 ms)
  is not modelled either.
- `Calendar.RenderCalendar` requires a month in 0..11, the values the
  month selector offers. A `NaN` year or month from `parseInt` of the
  selector is not modelled. `today` is a parameter instead of a clock read.
- `Records.SortBySorted`: `Array.prototype.sort` sorts in place with an
  unspecified algorithm. It is modelled as a stable insertion sort on
  values, which is the stable order the language guarantees.
- `Events.ByStartTimeOrdered`: `localeCompare` is modelled as code-point
  order, which agrees with it on the fixed-width "HH:MM" strings the time
  inputs give.
- `Assignments.ByDueDateOrdered`: the subtraction of `new Date(...)` values
  is modelled as code-point order on the fixed-width "YYYY-MM-DD" strings
  the date input gives. That order is the same as the date order.
- `Text.ParseIntDecimal`: `parseInt` is modelled for the text it reads
  (leading whitespace, sign, `0x` prefix, digits). Numbers beyond
  double-precision range and the loss of precision above 2^53 are not.
- `Timeline.RenderEventTimeline`: the early return when no date is
  selected is the caller's; the method takes the selected date as a
  parameter.
