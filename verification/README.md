# Calendar views, event editor and page state of a Google Calendar clone

This Dafny project models the logic of a small React calendar app: the month, week and
day views, the event editor dialog, and the page that holds the calendar state. The app
stores its events in a hosted database. The model proves what that logic promises.

Modules, one per file:

- `Wrappers` (`wrappers.dfy`): the `Option` type, used for the values the app holds
  as `null` or `undefined`.
- `CivilDate` (`civil_date.dfy`): the proleptic Gregorian calendar. A `Date` is a day
  number (days since 1970-01-01). `ToCivil` and `FromCivil` convert it to and from a
  year-month-day triple, and the two are proved inverse. The module also holds the
  date-fns operations the views use: `startOfWeek` and `endOfWeek` with Sunday as the
  first day, `startOfMonth`, `endOfMonth`, `isSameMonth`, `addDays`, `addWeeks` and
  `addMonths`, which clamps the day of the month.
- `LocalTime` (`local_time.dfy`): instants in milliseconds and wall-clock date-times at
  minute granularity. The browser's zone is a fixed offset in minutes.
- `Events` (`events.dfy`): the event record, and the `events.filter(...)` every view
  uses to pick a cell's events, by local start day, start hour or both. It also holds
  the colour an event is drawn in and the 24 hour rows.
- `MonthGrid` (`month_grid.dfy`): `CalendarGrid.tsx`. The cells run from the Sunday on or
  before the first of the month to the Saturday on or after its last day. Each cell
  carries its in-month flag and its events.
- `WeekView` (`week_view.dfy`) and `DayView` (`day_view.dfy`): `WeekView.tsx` and
  `DayView.tsx`, with 7 day columns and 24 hour rows.
- `EventEditor` (`event_editor.dfy`): `EventModal.tsx`. It covers:
  - form seeding from an event or a clicked date;
  - the user's edits;
  - the save guard, the payload, and the button labels.
- `Shell` (`shell.dfy`): `Index.tsx`. It covers:
  - the reference date and the view;
  - navigation;
  - the editor's open flag and its selection, which is an event or a date, never both;
  - the fetch, save and delete flows.

  The store's answers are parameters. Requests sent and notifications shown are
  outputs.

Two consequences of the code are worth stating:

- For reference date 2024-03-15, the grid has 42 cells, from 2024-02-25 to 2024-04-06.
  The loop runs to the Saturday on or after the month's last day, and 31 March 2024 is a
  Sunday (`MonthGrid.March2024Grid`).
- A failed save still closes the editor and clears the selection. The dialog calls
  `onClose` right after `onSave`, before the store answers (`Shell.SubmitEditor`). A
  failed delete, by contrast, leaves the editor open (`Shell.HandleDeleteEvent`).

## Model

| member | source | states |
|---|---|---|
| CivilDate.CivilFromDays | src/components/CalendarGrid.tsx:26-37 | Every day number names a valid year-month-day triple, and that triple names the day back. |
| CivilDate.CivilRoundTrip | src/components/CalendarGrid.tsx:26-37 | Converting a valid triple to its day number and back gives the triple. |
| CivilDate.DaysFromCivilInjective | src/components/CalendarGrid.tsx:26-37 | Two valid triples name the same day exactly when they are equal. |
| CivilDate.ToCivilComputed | src/components/CalendarGrid.tsx:26-37 | The triple defined as the one naming a day is the one the conversion algorithm computes. |
| CivilDate.CivilOfDateRoundTrip | src/components/CalendarGrid.tsx:26-37 | Reading a day's triple and naming it again gives the same day. |
| CivilDate.StartOfWeek | src/components/CalendarGrid.tsx:28 | `startOfWeek` is a Sunday, on or at most six days before the given day. |
| CivilDate.StartOfWeekUnique | src/components/WeekView.tsx:20 | Any Sunday that starts a seven-day span holding a day is that day's `startOfWeek`. |
| CivilDate.EndOfWeek | src/components/CalendarGrid.tsx:29 | `endOfWeek` is a Saturday, on or at most six days after the given day. |
| CivilDate.StartOfMonth | src/components/CalendarGrid.tsx:26 | `startOfMonth` is day 1 of the same month, `day - 1` days earlier. |
| CivilDate.EndOfMonth | src/components/CalendarGrid.tsx:27 | `endOfMonth` is the month's last day, `length - 1` days after its first. |
| CivilDate.MonthLength | src/components/CalendarGrid.tsx:27 | A month has 28 to 31 days. |
| CivilDate.SameMonthIffWithinMonth | src/components/CalendarGrid.tsx:66 | `isSameMonth(x, d)` holds exactly for the days from the first to the last of d's month. |
| CivilDate.AddDays | src/pages/Index.tsx:164 | Adding k days moves the day number by k and the day of the week by k, modulo 7. |
| CivilDate.AddWeeks | src/pages/Index.tsx:167 | Adding k weeks moves 7k days and keeps the day of the week. |
| CivilDate.AddDaysInverse | src/pages/Index.tsx:151 | Subtracting the days just added gives the original day. |
| CivilDate.AddMonths | src/pages/Index.tsx:170 | Adding k months moves the month index by k and keeps the day of the month, clamped to the target month's length. |
| LocalTime.ToLocal | src/components/CalendarGrid.tsx:43 | An instant read on the local clock gives a valid date-time whose minute count is the instant's floored minutes plus the offset. |
| LocalTime.FromLocal | src/components/EventModal.tsx:66-67 | A wall-clock value becomes a whole-minute instant whose minutes, plus the offset, are the value's minute count. |
| LocalTime.LocalRoundTrip | src/components/EventModal.tsx:66-67 | A valid wall-clock value converted to an instant reads back as the same value. |
| LocalTime.InstantRoundTrip | src/components/EventModal.tsx:46-47 | An instant converted to wall-clock form and back is the instant cut to the minute. |
| LocalTime.MinuteNumberRoundTrip | src/components/EventModal.tsx:46-47 | A valid date-time is determined by its minute count. |
| Events.Select | src/components/CalendarGrid.tsx:41-46 | A filtered list holds exactly the input events meeting the criterion, and is no longer than the input. |
| Events.SelectAppend | src/components/CalendarGrid.tsx:42-45 | Filtering a concatenation filters each part in turn, so input order is kept. |
| Events.SelectCount | src/components/CalendarGrid.tsx:42-45 | Each matching event keeps its number of occurrences; a non-matching one has none. |
| Events.SelectSorted | src/pages/Index.tsx:35-38 | The filtered events of a list ordered by start time are still ordered by start time. |
| Events.SelectDayThenHour | src/components/WeekView.tsx:48-59 | Filtering by day and then by hour equals one filter by the (day, hour) slot. |
| Events.DisplayColor | src/components/CalendarGrid.tsx:99 | An event's drawing colour is never empty. It is the default exactly when the event's colour is absent, empty or the default itself, and otherwise it is the event's colour. |
| Events.HourRows | src/components/WeekView.tsx:23 | There are 24 hour rows and row i is hour i. |
| MonthGrid.DaysThrough | src/components/CalendarGrid.tsx:31-37 | The `while` loop ends, and collects each day from the first through the last in order. |
| MonthGrid.CalendarSpan | src/components/CalendarGrid.tsx:26-29 | The grid starts on a Sunday and ends on a Saturday, under a week from the month's ends. It spans 28, 35 or 42 days. |
| MonthGrid.MonthCells | src/components/CalendarGrid.tsx:26-37 | The cells are: 28, 35 or 42 consecutive days; the first a Sunday within a week before the 1st; the last a Saturday within a week after the month's last day. |
| MonthGrid.BuildMonthCells | src/components/CalendarGrid.tsx:26-37 | The source's loop builds exactly these cells. |
| MonthGrid.MonthCellsDistinct | src/components/CalendarGrid.tsx:34-37 | No day is a cell twice. |
| MonthGrid.MonthCellsCoverMonth | src/components/CalendarGrid.tsx:26-37 | Every day of the reference month is a cell, at index `day - firstCell`. |
| MonthGrid.ReferenceDateShown | src/components/CalendarGrid.tsx:26-37 | The reference date is a cell. |
| MonthGrid.EndOfMonthOfStart | src/components/CalendarGrid.tsx:27 | Taking `endOfMonth` of the month's first day, as the source does, gives the month's last day. |
| MonthGrid.March2024Grid | src/components/CalendarGrid.tsx:26-37 | For 2024-03-15 the grid has 42 cells, from 2024-02-25 to 2024-04-06. |
| MonthGrid.February2015Grid | src/components/CalendarGrid.tsx:26-37 | For 2015-02-10 the grid has 28 cells, from 2015-02-01 to 2015-02-28. |
| MonthGrid.EventsForDay | src/components/CalendarGrid.tsx:41-46 | `getEventsForDay` keeps exactly the input events whose local start date is the given day, and is no longer than the input. |
| MonthGrid.EventsForDayAppend | src/components/CalendarGrid.tsx:41-46 | The day's events of a concatenation are those of each part in turn, so input order is kept. |
| MonthGrid.EventsForDayCount | src/components/CalendarGrid.tsx:41-46 | Each event starting that day appears as often as in the input; no other event appears. |
| MonthGrid.MonthLayout | src/components/CalendarGrid.tsx:64-66 | Every grid day is rendered as one cell, in order. |
| MonthGrid.CellEventsExact | src/components/CalendarGrid.tsx:65 | A cell lists exactly the input events whose local start date is its day, whatever its month flag. |
| MonthGrid.CellKeepsInputOrder | src/components/CalendarGrid.tsx:64-65 | A cell's events are one filter of the input by the cell's day, so they keep input order. |
| MonthGrid.InMonthFlagPositions | src/components/CalendarGrid.tsx:66 | The in-month flag is set exactly on the run of cells from the month's first to its last day. |
| MonthGrid.EventInAtMostOneCell | src/components/CalendarGrid.tsx:34-46 | An event is listed in at most one cell. |
| MonthGrid.EventShownIffInGrid | src/components/CalendarGrid.tsx:34-46 | An event is listed in some cell exactly when it is an input event starting between the first and last cell. |
| MonthGrid.OutOfMonthCellsHostEvents | src/components/CalendarGrid.tsx:64-76 | An event starting in the grid but outside the month is listed in an unflagged cell. |
| MonthGrid.CellClick | src/components/CalendarGrid.tsx:72 | A click on a cell reports that cell's day at 00:00. |
| WeekView.WeekColumns | src/components/WeekView.tsx:20-21 | The columns are 7 consecutive days, starting on a Sunday and holding the reference date. |
| WeekView.ReferenceDateIsColumn | src/components/WeekView.tsx:20-21 | The reference date is the column at its day-of-week index. |
| WeekView.WeekIsMonthGridRow | src/components/WeekView.tsx:20 | The columns are the month-grid row that holds the reference date. |
| WeekView.SlotEvents | src/components/WeekView.tsx:48-59 | A slot holds exactly the input events starting on its day in its hour. |
| WeekView.WeekLayout | src/components/WeekView.tsx:42-59 | The grid has 24 rows of 7 slots. Slot (h, c) is column c's day at hour h. |
| WeekView.SlotMembership | src/components/WeekView.tsx:48-59 | An event is in slot (h, c) exactly when it starts on column c's day in hour h. |
| WeekView.EventInAtMostOneSlot | src/components/WeekView.tsx:47-59 | An event is in at most one slot. |
| WeekView.EventShownIffInWeek | src/components/WeekView.tsx:47-59 | An event is in some slot exactly when it is an input event starting within the week. |
| WeekView.SlotKeepsInputOrder | src/components/WeekView.tsx:48-50 | A slot's events are a single filter of the input, so they keep input order. |
| WeekView.SlotClick | src/components/WeekView.tsx:55 | A click on a slot reports its day at its hour, minute 0. |
| WeekView.FridayAfternoonSlot | src/components/WeekView.tsx:48-59 | On a UTC clock, an event starting 2024-03-15T14:00Z is in hour row 14 of the Friday column of that week. |
| DayView.DayEvents | src/components/DayView.tsx:21-23 | The shown events are exactly the input events starting on the reference date. |
| DayView.DayEventsAppend | src/components/DayView.tsx:21-23 | The day's events of a concatenation are those of each part in turn, so input order is kept. |
| DayView.DayEventsCount | src/components/DayView.tsx:21-23 | Each event starting on the reference date appears as often as in the input; no other event appears. |
| DayView.DayLayout | src/components/DayView.tsx:34-45 | There are 24 rows, and row h is hour h. |
| DayView.RowMembership | src/components/DayView.tsx:43-45 | An event is in row h exactly when it starts on the reference date in hour h. |
| DayView.ShownEventInExactlyOneRow | src/components/DayView.tsx:43-45 | Each shown event is in the row of its start hour and in no other. |
| DayView.RowKeepsInputOrder | src/components/DayView.tsx:21-23 | A row's events are a single filter of the input, in input order. |
| DayView.RowClick | src/components/DayView.tsx:41 | A click on row h reports the reference date at h:00; the day is unchanged. |
| DayView.ShowsDescription | src/components/DayView.tsx:57 | The description is drawn unless it is `null` or the empty string, the two falsy values. |
| EventEditor.InitialFormUnseeded | src/components/EventModal.tsx:36-40 | The initial fields form a well-formed, unsavable form in the default colour, and with nothing selected seeding leaves them as they are. |
| EventEditor.Seed | src/components/EventModal.tsx:42-57 | Seeding depends on what is given. An event: its title; an empty description iff it has none; its start and end read on the local clock as valid wall-clock values; its drawing colour, which is its own colour unless absent or empty. A date alone: that day 09:00-10:00 with empty text and the default colour. Neither: the form unchanged. |
| EventEditor.SeedIgnoresClickedTime | src/components/EventModal.tsx:49-52 | Two clicked date-times on the same day seed the same form. |
| EventEditor.SeededDescriptionShownIff | src/components/EventModal.tsx:45 | The seeded description is non-empty exactly when the day view draws the event's description. |
| EventEditor.ApplyEdit | src/components/EventModal.tsx:82-131 | Each edit sets its own field to the new value and changes no other, and keeps the form well formed. Swatch i sets palette colour i. |
| EventEditor.CanSave | src/components/EventModal.tsx:60 | A form is blocked from saving exactly when its title, start or end is empty. |
| EventEditor.MakePayload | src/components/EventModal.tsx:62-69 | The payload's id is the edited event's id and absent in create mode. An empty description becomes absent. Times are whole minutes. The colour is the form's colour, non-empty when the form is well formed. |
| EventEditor.PayloadReadsBackForm | src/components/EventModal.tsx:66-67 | The payload's instants read back as the form's start and end. |
| EventEditor.HandleSave | src/components/EventModal.tsx:59-71 | An incomplete form makes no call. A complete one calls `onSave` with the payload, then `onClose`. |
| EventEditor.SeedOfSavedPayload | src/components/EventModal.tsx:43-48 | Seeding from the event stored for a saved payload gives back the saved form. |
| EventEditor.PayloadOfSeededEvent | src/components/EventModal.tsx:62-69 | Saving a seeded event unchanged gives: its id and title; its description unless empty; its times cut to the minute; its drawing colour. |
| EventEditor.ShowDelete | src/components/EventModal.tsx:137 | The delete button shows only when an event is being edited, and then exactly when a delete handler is passed. |
| EventEditor.ActionLabel | src/components/EventModal.tsx:147 | The save button reads "Update" exactly when editing an event and "Create" exactly when creating one. |
| EventEditor.DialogTitle | src/components/EventModal.tsx:77 | The title reads "Edit Event" exactly when editing an event and "Create Event" exactly when creating one. |
| EventEditor.UpdateLabelIffPayloadHasId | src/components/EventModal.tsx:147 | "Update" and "Edit Event" show exactly when the payload will carry an id. |
| Shell.Initial | src/pages/Index.tsx:22-27 | The first state is the month view of today, with no events, the editor closed and nothing selected. |
| Shell.FetchEvents | src/pages/Index.tsx:34-50 | One listing request. On error the state is unchanged and a destructive notice carries the store's message. Otherwise the events become the rows, or none. |
| Shell.IsUpdate | src/pages/Index.tsx:53 | A payload is an update exactly when it carries an id that is not the empty string. |
| Shell.HandleSaveEvent | src/pages/Index.tsx:52-107 | A non-empty id is an update by that id, anything else an insert. An error: one destructive notice, state unchanged, no refetch. Success: a confirmation, then the refetch's requests, notices and events as `fetchEvents` gives them, and both selections cleared. |
| Shell.HandleDeleteEvent | src/pages/Index.tsx:109-134 | No selected event: nothing happens. An error: the editor stays as it is, with a destructive notice. Success: a confirmation, then the refetch's requests, notices and events as `fetchEvents` gives them, the editor closed and the selected event cleared. |
| Shell.DateClick | src/pages/Index.tsx:136-140 | A date click selects the date, clears the event and opens the editor. |
| Shell.EventClick | src/pages/Index.tsx:142-146 | An event click selects the event, clears the date and opens the editor. |
| Shell.CloseModal | src/pages/Index.tsx:224-228 | Closing the editor clears both selections. |
| Shell.Previous | src/pages/Index.tsx:148-159 | Previous goes back one day, one week (same weekday) or one month by `subMonths`, which clamps the day of the month; nothing else changes. |
| Shell.Next | src/pages/Index.tsx:161-172 | Next goes forward one day, one week (same weekday) or one month by `addMonths`, which clamps the day of the month; nothing else changes. |
| Shell.NextThenPrevious | src/pages/Index.tsx:148-172 | In the day and week views, next then previous restores the state. |
| Shell.NextShiftsWeekColumns | src/pages/Index.tsx:166-168 | In the week view, next moves every column one week on. |
| Shell.MonthRoundTripClamps | src/pages/Index.tsx:148-172 | In the month view, next then previous from 2024-01-31 gives 2024-01-29, by way of 2024-02-29. |
| Shell.GoToday | src/pages/Index.tsx:218 | Today sets the reference date to the clock's date and nothing else. |
| Shell.ChangeView | src/pages/Index.tsx:219 | Changing the view keeps the reference date and everything else. |
| Shell.SidebarSelect | src/pages/Index.tsx:210 | A picked date becomes the reference date and nothing else changes; an empty pick changes nothing. |
| Shell.DeleteHandlerPassed | src/pages/Index.tsx:230 | The delete handler is passed exactly when an event is selected. |
| Shell.DeleteShownIffEventSelected | src/pages/Index.tsx:230 | The delete button shows exactly when an event is selected. |
| Shell.SubmitEditor | src/components/EventModal.tsx:59-71 | An incomplete form changes nothing. A complete one: the editor closes and both selections clear, whatever the store answers; the reference date and view are kept. The first request carries the payload built from the form and the selected event, as an update when that payload has a non-empty id and an insert otherwise. A failed save sends nothing more, keeps the events and shows one destructive notice with the store's message. A successful one sends the listing request and shows a confirmation followed by the refetch's notices, and it takes the refetch's events. |
| Shell.Apply | src/pages/Index.tsx:136-146 | Every action keeps the selection invariant: never both selections, and the editor open exactly when one is set. |
| Shell.RunKeepsConsistent | src/pages/Index.tsx:136-146 | From a consistent state, any run of actions keeps the selection invariant. |

## Left out

- Store access (`supabase` select, insert, update, delete) is remote I/O. Each flow takes
  the store's answer as a parameter and records the request it sent.
- Notification delivery is not modelled; notifications are outputs with title, text and
  error styling.
- The initial `useEffect` fetch is not a separate member. It is `Shell.FetchEvents`
  applied to `Shell.Initial`.
- Time zones are a fixed offset in minutes. Daylight-saving changes, the zone database,
  and parsing or formatting of ISO strings are left out. Instants are milliseconds.
- All `format` output is left out: "HH:mm" and "ha" labels, weekday names, and the
  header's title in `src/components/CalendarHeader.tsx`. It is library formatting with
  no logic of the app's own.
- JavaScript dates are bounded: beyond 8.64e15 ms from the epoch a `Date` is "Invalid
  Date". `Instant.millis` and `Date.dayNumber` are unbounded integers, so the model does
  not reproduce that limit.
- "Today" highlighting and the clock are left out; the Today button takes the clock's
  date as a parameter.
- The in-place `setHours` on the clicked `Date` in `src/components/WeekView.tsx:55` and
  `src/components/DayView.tsx:41` is JavaScript aliasing. The click returns a fresh
  value, and only the time of day differs.
- `CalendarHeader.tsx`, `ViewSwitcher.tsx` and `Sidebar.tsx`, the JSX, the CSS classes
  and `cn` are presentational wiring. The header's and sidebar's callbacks are modelled
  where `Index.tsx` handles them.
- Shell.Apply: each action, including its store answers, is one atomic step. An
  interleaving where a save's answer arrives after the editor was reopened is not
  modelled. In the app that interleaving breaks the selection invariant: the late
  success clears both selections (`src/pages/Index.tsx:105-106`) but leaves the editor
  open, with nothing selected, still holding the reopened event's fields under "Create".
  `Shell.RunKeepsConsistent` covers only runs of the modelled atomic actions.
- EventEditor.Seed: React runs the effect when the event or the selected date changes.
  The page state (`Shell.Page`) does not hold the editor's form. `Shell.SubmitEditor`
  takes the form as a parameter, so nothing ties a saved form to `Seed` of the current
  selection followed by the user's edits. The editor's own round trip is stated separately
  by `EventEditor.SeedOfSavedPayload` and `EventEditor.PayloadOfSeededEvent`.
- EventEditor.ApplyEdit: a `datetime-local` field is assumed to hold either nothing or a
  valid wall-clock value. Partially typed values are not modelled.
