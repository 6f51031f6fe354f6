# Galion desktop shell: overlay controller and calendar panel

This project models the interactive core of the Galion desktop shell's
top-level component, `ui/src/App.tsx`. It has three parts.

- **Overlay** (`overlay.dfy`). The `App` component keeps two flags: whether the
  calendar overlay is shown and whether the app container (the launcher) is
  shown. Clicking the date button flips the first flag. Clicking the G icon
  flips the second. A document-wide `mousedown` handler hides each overlay
  when the pointer goes down outside it.
  - `App` is a class with those two flags and the two element refs.
  - Its three handlers are methods. Each one is tied to a pure step function,
    `Step` / `ClickOutside`. Runs of events are folded by `Run`.
  - A pointer target is modelled as its inclusive ancestor chain, which is
    what `contains` and `closest` inspect.
- **Calendar** (`calendar.dfy`). This is the calendar panel.
  - `getDaysInMonth` and `getFirstDayOfMonth` are functions.
  - The two loops that fill the day cells are a method, proved to build the
    grid `IsDayGrid` describes.
  - The month cursor is a class whose previous/next methods move it to the
    1st of the neighbouring month.
- **JsDate** (`jsdate.dfy`). This is the part of JavaScript's `Date` that the
  calendar relies on, at day granularity.
  - `new Date(y, m, d)` maps years 0..99 to 1900..1999.
  - It normalises an out-of-range month with floor division.
  - It normalises an out-of-range day by rolling into neighbouring months.
  - `getDay` is the day number since 1 January 1970, plus four, modulo 7.
  - The day-number partner is ECMAScript's `MakeDay`. Its closed-form
    `DayFromYear` is proved equal to counting whole years.

The code and the component's documented behaviour disagree on one point.
The description says an outside pointer-down hides both overlays. In the
code, `calendarRef` and `dateButtonRef` are created but never attached to
any element, and the calendar check requires both refs to be attached. So
an outside pointer-down never hides the calendar; only its own button does.
The model follows the code: the `App` constructor leaves both refs `None`.
`CalendarOnlyToggles` and `OpenBothThenClickOutside` state the consequence.
`OutsideHidesBoth` shows what attached refs would do.

## Model

| member | source | states |
|---|---|---|
| Overlay.ClickOutside | ui/src/App.tsx:272-294 | the outside-click handler never shows an overlay: each flag after it implies the flag before |
| Overlay.CalendarDismissal | ui/src/App.tsx:276-284 | the calendar is hidden by a pointer-down iff it was hidden or it is shown, both refs are attached and the target is in neither; with a ref unattached, or a target inside the panel or the button, the calendar is unchanged |
| Overlay.LauncherDismissal | ui/src/App.tsx:286-293 | the launcher is hidden by a pointer-down iff it was hidden or the target has no `.g-icon-container` or `.app-container` ancestor; each check ignores the other overlay's flag |
| Overlay.ClickOutsideIdempotent | ui/src/App.tsx:272-294 | a second pointer-down on the same target changes nothing more |
| Overlay.OutsideHidesBoth | ui/src/App.tsx:272-294 | with both refs attached, a pointer-down outside the panel, the button and the launcher hides both overlays |
| Overlay.RunPrefix | ui/src/App.tsx:262-294 | handling a list of events is handling its first event, then the rest |
| Overlay.ToggleParity | ui/src/App.tsx:262-268 | over trigger clicks alone, each overlay is shown iff its start state differs from the parity of its trigger's clicks |
| Overlay.ToggleTwice | ui/src/App.tsx:262-268 | clicking either trigger twice restores the state |
| Overlay.MouseDownsNeverShow | ui/src/App.tsx:272-294 | no run of pointer-downs shows a hidden overlay |
| Overlay.CalendarOnlyToggles | ui/src/App.tsx:259-260 | with the refs never attached, over any run of events the calendar is shown iff its start state differs from the parity of the date-button clicks |
| Overlay.DateButtonGesture | ui/src/App.tsx:167-173 | a press-and-click on the date button flips the calendar, and hides the launcher exactly when it was shown and the button lies outside it |
| Overlay.GIconGesture | ui/src/App.tsx:208-215 | a press-and-click on the G icon flips the launcher, because the outside-click check spares `.g-icon-container` |
| Overlay.OpenBothThenClickOutside | ui/src/App.tsx:256-301 | open the calendar, open the launcher, press outside everything: as written only the launcher closes; with the refs attached both would |
| Overlay.App.constructor | ui/src/App.tsx:257-260 | both overlays start hidden and both refs start unattached |
| Overlay.App.HandleDateClick | ui/src/App.tsx:262-264 | flips the calendar flag only, agreeing with `Step` on a date click |
| Overlay.App.HandleGIconClick | ui/src/App.tsx:266-268 | flips the launcher flag only, agreeing with `Step` on a G-icon click |
| Overlay.App.HandleClickOutside | ui/src/App.tsx:272-294 | the two checks, each on the flags before the event, give the new state `ClickOutside` describes |
| JsDate.MonthLength | ui/src/App.tsx:15-17 | a month has 28 to 31 days; February has 29 iff the year is a leap year |
| JsDate.DaysBeforeMonthStep | ui/src/App.tsx:15-17 | the cumulative month table steps by each month's length and totals the year's length |
| JsDate.YearStep | ui/src/App.tsx:19-21 | consecutive years start one year length apart on the day line |
| JsDate.DayFromYearClosedForm | ui/src/App.tsx:19-21 | counting whole years from 1970 agrees with ECMAScript's floor-division closed form for every year |
| JsDate.DayFromYearMonotone | ui/src/App.tsx:19-21 | an earlier year starts, and ends, before a later one |
| JsDate.DayNumberInjective | ui/src/App.tsx:15-21 | two valid dates on the same day number are the same date |
| JsDate.Normalize | ui/src/App.tsx:16 | whatever the day argument, the constructed date is a valid calendar date |
| JsDate.RollForward | ui/src/App.tsx:16 | carrying day overflow into later months gives a valid date |
| JsDate.RollBack | ui/src/App.tsx:16 | borrowing day underflow from earlier months gives a valid date |
| JsDate.RollForwardDayNumber | ui/src/App.tsx:16 | carrying overflow keeps the date on the day where day `d` of the month puts it |
| JsDate.RollBackDayNumber | ui/src/App.tsx:16 | borrowing underflow keeps the date on the day where day `d` of the month puts it |
| JsDate.MakeDayNextMonth | ui/src/App.tsx:19-21 | the 1st of the next month is one month length after the 1st of this one |
| JsDate.NewDate | ui/src/App.tsx:16 | `new Date(y, m, d)` always has a valid month and day |
| JsDate.NewDateDayNumber | ui/src/App.tsx:16 | `new Date(y, m, d)` lands on ECMAScript's `MakeDay` of the two-digit-adjusted year, for every month and day, in range or not |
| JsDate.WeekDay | ui/src/App.tsx:20 | `getDay` is a weekday 0..6 |
| Calendar.DaysInMonth | ui/src/App.tsx:15-17 | `getDaysInMonth` is between 1 and 31 for any arguments |
| Calendar.DaysInMonthIsMonthLength | ui/src/App.tsx:15-17 | for a month 0..11, `getDaysInMonth` is the month's Gregorian length: 28..31, and February has 29 iff the year is leap |
| Calendar.FebruaryExamples | ui/src/App.tsx:15-17 | February 2024 has 29 days and February 2023 has 28 |
| Calendar.FirstDayOfMonth | ui/src/App.tsx:19-21 | `getFirstDayOfMonth` is a weekday 0..6 |
| Calendar.FirstDayOfMonthIsWeekDay | ui/src/App.tsx:19-21 | the first weekday is the ECMAScript weekday of day 1 of the month |
| Calendar.FirstDayOfNextMonth | ui/src/App.tsx:15-21 | the next month starts `getDaysInMonth` weekdays after this one, modulo 7 |
| Calendar.BuildDayCells | ui/src/App.tsx:33-56 | the two loops yield `getFirstDayOfMonth` blanks followed by the days 1..`getDaysInMonth` in order, each flagged iff it is today |
| Calendar.GridColumns | ui/src/App.tsx:33-56 | day `k` sits at index lead + k - 1, under the column of its own weekday |
| Calendar.TodayFlag | ui/src/App.tsx:42-46 | at most one cell is flagged today, and one is iff the grid shows today's month and year |
| Calendar.PreviousMonth | ui/src/App.tsx:58-60 | the previous-month target is a valid date on the 1st |
| Calendar.NextMonth | ui/src/App.tsx:62-64 | the next-month target is a valid date on the 1st |
| Calendar.PreviousMonthStep | ui/src/App.tsx:58-60 | it goes back exactly one month, to December of the year before from January |
| Calendar.NextMonthStep | ui/src/App.tsx:62-64 | it goes forward exactly one month, to January of the next year from December |
| Calendar.NextThenPrevious | ui/src/App.tsx:58-64 | next then previous returns to the 1st of the same month |
| Calendar.PreviousThenNext | ui/src/App.tsx:58-64 | previous then next returns to the 1st of the same month, unless that passes through year 99 |
| Calendar.TwoDigitYearJump | ui/src/App.tsx:58-64 | back from January of year 100 is December 99, and forward from there is January 2000 |
| Calendar.CalendarPanel.constructor | ui/src/App.tsx:13 | the cursor starts at today's date |
| Calendar.CalendarPanel.GoToPreviousMonth | ui/src/App.tsx:58-60 | moves the cursor to `PreviousMonth` of the old cursor, keeping it valid |
| Calendar.CalendarPanel.GoToNextMonth | ui/src/App.tsx:62-64 | moves the cursor to `NextMonth` of the old cursor, keeping it valid |
| Calendar.CalendarPanel.Days | ui/src/App.tsx:23-56 | the rendered cells are the day grid of the cursor's month and year |

## Left out

- `TimeDisplay` (ui/src/App.tsx:102-141): it reads the clock once a second and formats it with the locale. This is clock I/O and locale formatting.
- Registering and removing the `mousedown` listener (ui/src/App.tsx:296-301) is not modelled as an operation. `HandleClickOutside` is the listener, reading the flags current at the event.
- React's rendering, batching of state updates and re-mounting are not modelled. Mounting the calendar (ui/src/App.tsx:174-178) corresponds to calling the `CalendarPanel` constructor, and `App` does not hold the panel.
- The JSX markup, CSS classes other than the two the handler tests, `monthNames`, `dayNames` and the cell keys are presentation only.
- The placeholder app list and `handleAppDoubleClick` (ui/src/App.tsx:192-203) only log to the console.
- The DOM is reduced to the ancestor chain of the event target. Element identity is an id, and `closest` with a class selector is membership of the class in some ancestor's class set.
- Time of day and time zones are not modelled. A `Date` is its calendar fields; `new Date()` ("now") is the `today` parameter.
- The `isToday` test calls `new Date()` afresh for each day, so the clock could pass midnight between calls. The model reads today once per render.
- JsDate.WeekDay: no literal weekday example (such as 1 January 1970 being a Thursday) is proved. The weekday is tied to ECMAScript's `MakeDay` by `Calendar.FirstDayOfMonthIsWeekDay` instead.
- Calendar.PreviousMonthStep, Calendar.NextMonthStep, Calendar.FirstDayOfNextMonth and Calendar.TodayFlag: these exclude cursor years 0..99, where the `Date` constructor reinterprets the year as 1900..1999. `Calendar.TwoDigitYearJump` states what happens at that boundary.
- JavaScript `Date` values are bounded to about 275,000 years around 1970. Dates beyond that are invalid in JavaScript, while the model's integers are unbounded.
