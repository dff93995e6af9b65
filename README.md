# tinycal menu-bar calendar: a Dafny model of its core

tinycal is a macOS menu-bar widget. It shows a month grid and a to-do list for
each day, and its status-bar title reads "<date> (<number of tasks today>)".
This project models the logic behind that widget and proves what it
guarantees:

- **Day keys** (`day_keys.dfy`, module `DayKeys`). A timestamp is a whole
  number of seconds since 1970-01-01 00:00 local time. `StartOfDay` takes it to
  the midnight that begins its day, which is the only kind of key the task
  dictionary uses. `Weekday` and `AddDays` are the Gregorian calendar
  arithmetic that the grid needs.
- **Month grid** (`calendar_grid.dfy`, module `CalendarGrid`).
  `GenerateDaysInMonth` fills a preallocated array of empty slots in a loop,
  as `CalendarGrid.generateDaysInMonth` does. It is proved equal to `Layout`,
  and the lemmas about `Layout` prove:
  - the length is a whole number of weeks;
  - exactly the month's days are filled, in order, one day apart;
  - every day sits in its weekday's column.
- **Task store as values** (`tasks.dfy`, module `Tasks`). This covers:
  - the title trimming rule (`CharacterSet.whitespaces`);
  - what adding and deleting do to the `[day: [Task]]` dictionary;
  - the lookup that drives the task list.
  The lemmas prove that "no day maps to an empty list" is preserved, and that
  deleting a freshly added task restores the store.
- **Calendar view state** (`calendar_view.dfy`, class `CalendarView`). The view
  mutates its dictionary in place, so its state is a class. `AddTask` and
  `DeleteTask` state their whole new state in terms of the functions above.
  Persistence is a log of saved snapshots, and identifiers come from a
  counter.
- **Menu bar** (`menu_bar.dfy`, module `MenuBarApp`). It covers today's task
  count and the status title built from it. The title is proved to read back
  to the formatted date and the count. The class `AppDelegate` holds the title
  and the popover's shown flag. The title is refreshed at launch and when the
  popover opens, and never when it closes.

Foreign inputs are parameters:
- the calendar's month range and first day of month are `Option` inputs of
  `GenerateDaysInMonth`;
- the decoded contents of the persistent slot are an `Option` input of the
  `CalendarView` constructor;
- the clock reading is a `now` parameter;
- the "MMM d" date formatter is a function parameter `format`.

Points where the code's behaviour is easy to miss:
- `deleteTask` saves only when the day has an entry, even if no task matches.
- The store loaded at start-up is not checked, so it may hold empty lists.
  The task list then shows "No tasks for this day" (line 41). Only adding and
  deleting preserve the no-empty-list rule.
- The title is recomputed at launch and on opening the popover, not on every
  change to the store.
- Trimming removes tabs and Unicode space separators, but not line breaks.
- Saved tasks do not come back with their identifiers. `Task.id` has a default
  value, so decoding gives every task a fresh one. The model therefore states
  no save/load round trip.

## Model

| member | source | states |
|---|---|---|
| DayKeys.StartOfDay | menutodo/CalendarView.swift:100 | the key is a midnight (a multiple of a day) at or before the timestamp and less than a day before it |
| DayKeys.StartOfDayIdempotent | menutodo/CalendarView.swift:100 | normalising a key again gives the same key |
| DayKeys.SameDayIffSameKey | menutodo/CalendarView.swift:100 | two timestamps get the same key exactly when they fall on the same calendar day |
| DayKeys.StartOfDayMonotone | menutodo/CalendarView.swift:100 | keys are ordered as the timestamps they come from |
| DayKeys.Weekday | menutodo/CalendarView.swift:181 | the weekday component lies in 1..7 (1 is Sunday) |
| DayKeys.AddDays | menutodo/CalendarView.swift:188 | adding n days moves the day number by exactly n and keeps the time of day |
| DayKeys.AddDaysKeepsStart | menutodo/CalendarView.swift:188 | a day start plus n days is again a day start |
| DayKeys.WeekdayAddDays | menutodo/CalendarView.swift:181-188 | the day n days on has the weekday n places further round the week |
| CalendarGrid.PaddedSlots | menutodo/CalendarView.swift:182-183 | the slot count is a multiple of 7, at least firstWeekday + count and less than a week more |
| CalendarGrid.Layout | menutodo/CalendarView.swift:185-190 | the reference grid has the padded length |
| CalendarGrid.GenerateDaysInMonth | menutodo/CalendarView.swift:175-193 | a missing range or first day gives the empty grid; otherwise the array filled in the loop equals the reference layout for firstWeekday = weekday(first) - 1 |
| CalendarGrid.LayoutPadding | menutodo/CalendarView.swift:185-190 | a slot is empty exactly when it lies before firstWeekday or after the month's last day |
| CalendarGrid.LayoutFilled | menutodo/CalendarView.swift:187-190 | exactly count slots hold a day |
| CalendarGrid.LayoutIncreasing | menutodo/CalendarView.swift:187-189 | filled slots hold increasing days, j - i days apart for slots i < j |
| CalendarGrid.LayoutStartsAtOffset | menutodo/CalendarView.swift:181-189 | the first filled slot is at firstWeekday and holds the first of the month |
| CalendarGrid.LayoutColumnIsWeekday | menutodo/CalendarView.swift:181-189 | the day in slot i has weekday i mod 7 + 1, so each day is in its Sunday-first column |
| CalendarGrid.WednesdayMonth | menutodo/CalendarView.swift:181-190 | a 31-day month starting on a Wednesday gives 35 slots: 3 empty, then the 31 days in order in slots 3 to 33, then 1 empty |
| Tasks.WhitespaceMembers | menutodo/CalendarView.swift:97 | `CharacterSet.whitespaces` holds the space and the tab, and no line break |
| Tasks.TrimStart | menutodo/CalendarView.swift:97 | the result is a suffix whose dropped prefix is all whitespace and which does not start with whitespace |
| Tasks.TrimEnd | menutodo/CalendarView.swift:97 | the result is a prefix whose dropped suffix is all whitespace and which does not end with whitespace |
| Tasks.Trim | menutodo/CalendarView.swift:97 | the trimmed title is no longer than the title and has no whitespace at either end |
| Tasks.TrimIsInfix | menutodo/CalendarView.swift:97 | the trimmed title is a contiguous piece of the title with only whitespace around it |
| Tasks.TrimEmptyIff | menutodo/CalendarView.swift:97-98 | the trimmed title is empty exactly when the title is all whitespace |
| Tasks.TrimIdempotent | menutodo/CalendarView.swift:97 | trimming twice is trimming once |
| Tasks.TrimExamples | menutodo/CalendarView.swift:97-98 | " Buy milk " trims to "Buy milk"; "" and "   " trim to the empty title |
| Tasks.RemoveAll | menutodo/CalendarView.swift:115 | a task remains exactly when it was in the list and has a different id; the list does not grow |
| Tasks.RemoveAllAppend | menutodo/CalendarView.swift:115 | removal distributes over concatenation, so remaining tasks keep their order |
| Tasks.RemoveAllAbsent | menutodo/CalendarView.swift:115 | removing an id no task has leaves the list unchanged |
| Tasks.RemoveAllIdempotent | menutodo/CalendarView.swift:115 | removing the same id again changes nothing |
| Tasks.AddToDay | menutodo/CalendarView.swift:100-106 | the day gains an entry ending in the new task after its old tasks (a one-element list if it had none); every other day is unchanged and no day is lost |
| Tasks.RemoveFromDay | menutodo/CalendarView.swift:113-120 | other days are unchanged; the day keeps exactly its tasks with other ids, and is dropped exactly when none remain; no day is added |
| Tasks.TasksOn | menutodo/MenuBarCalendarApp.swift:47 | the lookup gives the stored list for the day's key, and the empty list when the day has no entry |
| Tasks.TasksOnSameDay | menutodo/CalendarView.swift:41 | every moment of one day sees the same task list |
| Tasks.ShownTasks | menutodo/CalendarView.swift:41 | the list is shown only when non-empty and equal to the day's stored list; otherwise the day has no stored tasks ("No tasks for this day") |
| Tasks.ShownTasksNoneIff | menutodo/CalendarView.swift:41 | with no empty lists, a day shows "no tasks" exactly when it has no entry |
| Tasks.AddKeepsNoEmptyDays | menutodo/CalendarView.swift:101-106 | adding preserves "no key maps to an empty list" |
| Tasks.RemoveKeepsNoEmptyDays | menutodo/CalendarView.swift:114-120 | deleting preserves "no key maps to an empty list" |
| Tasks.RemoveFromAbsentDay | menutodo/CalendarView.swift:114 | deleting from a day without an entry changes nothing |
| Tasks.RemoveAbsentId | menutodo/CalendarView.swift:114-120 | deleting an id the day does not hold changes nothing, as long as the day's list is not empty |
| Tasks.AddThenRemove | menutodo/CalendarView.swift:99-120 | deleting a just-added task with an id new to its day restores the store, so a day that had no entry has none again |
| Tasks.RemoveFromDayIdempotent | menutodo/CalendarView.swift:113-120 | deleting the same id from the same day twice equals deleting it once |
| Tasks.AddKeepsIdsBelow | menutodo/CalendarView.swift:99 | adding a task whose id is below the bound keeps all ids below the bound |
| Tasks.RemoveKeepsIdsBelow | menutodo/CalendarView.swift:115 | deleting keeps all ids below the bound |
| CalendarViewState.IdCeiling | menutodo/CalendarView.swift:133 | every id in the store is below the returned bound, so ids issued from it on are new |
| CalendarViewState.CalendarView.constructor | menutodo/CalendarView.swift:11-17 | the store is the decoded dictionary when decoding succeeds and empty otherwise; the title field is empty, nothing is saved, the selected date is now |
| CalendarViewState.CalendarView.SetNewTaskTitle | menutodo/CalendarView.swift:64 | the text field sets the new-task title |
| CalendarViewState.CalendarView.SelectDate | menutodo/CalendarView.swift:164 | tapping a day selects it |
| CalendarViewState.CalendarView.SaveTasks | menutodo/CalendarView.swift:125-129 | one snapshot of the current store is written |
| CalendarViewState.CalendarView.AddTask | menutodo/CalendarView.swift:96-110 | a title that trims to empty leaves store, title field, counter and saves unchanged; otherwise the store becomes AddToDay with a fresh id and the trimmed title, the field is cleared and the new store is saved; the id was not in use; no-empty-lists is preserved |
| CalendarViewState.CalendarView.DeleteTask | menutodo/CalendarView.swift:112-123 | the store becomes RemoveFromDay for the day of the date; a save happens exactly when the day had an entry; no-empty-lists is preserved |
| MenuBarApp.TaskCount | menutodo/MenuBarCalendarApp.swift:45-47 | the count is the length of today's stored list, 0 when today has no entry |
| MenuBarApp.NatToString | menutodo/MenuBarCalendarApp.swift:50 | the count renders as a non-empty run of decimal digits without leading zeros |
| MenuBarApp.NatToStringRoundTrip | menutodo/MenuBarCalendarApp.swift:50 | reading the rendered count back gives the count |
| MenuBarApp.StatusTitle | menutodo/MenuBarCalendarApp.swift:45-50 | the title is as long as the date, the digits and the three characters " (" and ")" |
| MenuBarApp.StatusTitleParses | menutodo/MenuBarCalendarApp.swift:48-50 | the title starts with the formatted date and then carries, in parentheses, exactly today's count |
| MenuBarApp.StatusTitleExamples | menutodo/MenuBarCalendarApp.swift:47-50 | with date "Jan 5", two tasks today give "Jan 5 (2)" and no entry gives "Jan 5 (0)" |
| MenuBarApp.StatusTitleAsWritten | menutodo/MenuBarCalendarApp.swift:46-50 | with its two clock readings on the same day, the title is the single-reading title |
| MenuBarApp.AsWrittenTitleMismatch | menutodo/MenuBarCalendarApp.swift:46-50 | readings straddling midnight show the new date beside the old day's count |
| MenuBarApp.TaskCountAfterAdd | menutodo/MenuBarCalendarApp.swift:47 | adding to today raises the count by one; adding to another day leaves it |
| MenuBarApp.TaskCountAfterRemove | menutodo/MenuBarCalendarApp.swift:47 | deleting never raises the count and leaves it alone for other days |
| MenuBarApp.AppDelegate.constructor | menutodo/MenuBarCalendarApp.swift:19-33 | at launch the popover is closed and the title is computed once from the view's tasks |
| MenuBarApp.AppDelegate.UpdateStatusItemTitle | menutodo/MenuBarCalendarApp.swift:43-52 | the title becomes the status title of the view's tasks (unchanged when there is no button) |
| MenuBarApp.AppDelegate.TogglePopover | menutodo/MenuBarCalendarApp.swift:54-63 | a shown popover closes with the title kept; a closed one opens and the title is recomputed; without a button nothing changes |

## Left out

- SwiftUI layout: view bodies, frames, colours, the weekday header, the `LazyVGrid` rendering, the today and selection highlights (`isSameDay`), and the previews. These are presentation only.
- `Calendar.current`: timestamps are whole seconds in local time with 86400-second days. Time zones, daylight-saving days and non-Gregorian calendars are not modelled. `range(of:in:for:)` and the month's first day are inputs, because they need month-length tables.
- `Date` is a floating-point interval in the source; here it is an integer.
- `JSONEncoder`, `JSONDecoder` and `UserDefaults`: the decoded dictionary is an `Option` input and a save appends a snapshot to `saved`. Encoding is taken to succeed, so the `try?` that drops a failed encoding is not modelled.
- CalendarViewState.CalendarView.constructor: takes the decoded ids as given. The real decoder gives each task a fresh `UUID`, because `Task.id` has a default value. The model starts its counter above the decoded ids.
- `UUID()`: identifiers come from a counter. Uniqueness across the whole store is not tracked, only that new ids are unused.
- Swift `Int` is 64 bits and traps on overflow; the model's integers are unbounded. No month or task count comes near the limit.
- The popover's `.transient` behaviour, which closes it on an outside click without `togglePopover`, is not modelled. Neither is the `as? NSHostingController` cast, which always succeeds with the launch wiring.
- MenuBarApp.AppDelegate.UpdateStatusItemTitle: takes a single clock reading `now` for both today's key and the label's date, as do the constructor and `TogglePopover` that call it. The code reads the clock twice (see Findings); `MenuBarApp.StatusTitleAsWritten` models the two readings.
- The title reads `rootView.tasks`, which is a copy of the view's `@State`; the model reads the view's store directly.
- The Add button's `.disabled(newTaskTitle.isEmpty)` gate is UI only; `AddTask`'s own trim check is modelled.

## Findings

| source | as written | input that shows it | evidently intended | confidence | as-written member | corrected member |
|---|---|---|---|---|---|---|
| menutodo/MenuBarCalendarApp.swift:46-50 | today's key and the label's date come from two separate `Date()` readings | first reading 23:59:59 on a day with one task, second at 00:00:00 the next day: the title shows the new date with count 1 although that date has no tasks | count and date taken from one reading of the clock | low, a race of microseconds at midnight; not executed | MenuBarApp.StatusTitleAsWritten, MenuBarApp.AsWrittenTitleMismatch | MenuBarApp.StatusTitle, MenuBarApp.StatusTitleParses |
