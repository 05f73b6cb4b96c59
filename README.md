# Interview scheduler: slot matching

This project models the slot-matching engine of a small interview scheduler. Engineers publish weekly
availability windows. A candidate has one preferred window. Interviews already booked lock the times
they cover. The model covers:

- `calculateEndTime`, which computes a "HH:MM" end time from a start time and a number of minutes.
  `src/utils/availability.ts` reduces the hour modulo 24. The calendar component's copy does not.
- `isTimeSlotAvailable`, the single-engineer availability test.
- The calendar's grid of start times, built by two nested loops.
- The calendar's multi-engineer availability test behind every cell.
- The engineer a click on a cell proposes.

Times stay the zero-padded strings the application stores, and they are compared as JavaScript
compares strings (`Clock.Less`). The lock and containment predicates of `Availability`, and with them
`Availability.IsTimeSlotAvailable`, each have a reference version on minutes since midnight. The
calendar's cell test reaches that version on grid entries, through
`Calendar.GridCellMatchesSingleEngineer`. `Clock.LessIsNumeric` shows that, on well-formed "HH:MM" strings, string order and numeric
order agree. This is what makes the string comparisons of the source mean what they appear to mean.

Modules:

- `Types`: the records of `src/types/index.ts`.
- `Clock`: the text form of times: `String(n).padStart(2, '0')`, reading "HH:MM" back, and string
  comparison.
- `Availability`: `src/utils/availability.ts`.
- `AvailabilityExamples`: the availability cases of `src/utils/__tests__/availability.test.ts`, on
  its mock data.
- `Calendar`: `src/components/Calendar.tsx`. `GenerateTimeSlots` is a method with nested `for`
  loops, proved against the function `Grid`. The rest is pure functions and lemmas.

## Model

| member | source | states |
|---|---|---|
| Clock.Format | src/utils/availability.ts:12 | the template `${pad(hours)}:${pad(minutes)}`; its contract is `Clock.FormatIsClock` and `Clock.FormatOfFields` (no ensures of its own) |
| Clock.Hours | src/utils/availability.ts:4 | the hours `split(':').map(Number)` reads from a well-formed string, below 100 |
| Clock.Mins | src/utils/availability.ts:4 | the minutes read from a well-formed string, below 60 |
| Clock.ToMinutes | src/utils/availability.ts:5 | `hours * 60 + minutes`; `Clock.ClockInjective` and `Clock.FormatOfFields` are its contract (no ensures of its own) |
| Clock.Less | src/utils/availability.ts:31-32 | JavaScript's `<` on strings; its contract is `Clock.LessIsNumeric` (no ensures of its own) |
| Clock.FormatIsClock | src/utils/availability.ts:12 | writing hours below 100 and minutes below 60 gives a well-formed "HH:MM" string that reads back as the same hours, minutes and minute count |
| Clock.FormatOfFields | src/utils/availability.ts:4-12 | every well-formed clock string is what the template writes for the numbers `split(':').map(Number)` reads from it |
| Clock.ClockInjective | src/utils/availability.ts:4 | two well-formed clock strings for the same minute count are the same string |
| Clock.LessIsNumeric | src/utils/availability.ts:31-32 | on well-formed "HH:MM" strings (HH 00-99), string `<` holds exactly when the first time is earlier in minutes |
| Availability.CalculateEndTime | src/utils/availability.ts:3-13 | the end time is a well-formed time of day (hour 00-23), and its minute count is start plus duration modulo 1440 |
| Availability.EndTimeWrapsWholeDays | src/utils/__tests__/availability.test.ts:51-55 | adding any whole number of days to a time of day gives back the same string |
| Availability.EndTimeIs | src/utils/availability.ts:3-13 | the end time equals any well-formed clock string whose minute count is start plus duration modulo 1440 |
| Availability.EndTimeHalfHourExamples | src/utils/__tests__/availability.test.ts:29-31 | "09:00" + 30 is "09:30", and "09:30" + 30 is "10:00" |
| Availability.EndTimeQuarterToExamples | src/utils/__tests__/availability.test.ts:32-36 | "09:45" + 30 is "10:15", and "23:45" + 30 is "00:15" |
| Availability.EndTimeRolloverExamples | src/utils/__tests__/availability.test.ts:37-46 | "23:45" + 45 is "00:30", and "23:00" + 120 is "01:00" |
| Availability.EndTimeAlmostDayExample | src/utils/__tests__/availability.test.ts:48 | "23:45" + 1435 is "23:40" |
| Availability.EndTimeWholeDayExamples | src/utils/__tests__/availability.test.ts:52-53 | "23:45" + 1440 is "23:45", and "12:00" + 2880 is "12:00" |
| Availability.EndTimeTwoDaysLateExample | src/utils/__tests__/availability.test.ts:54 | "23:45" + 2880 is "23:45" |
| Availability.Locks | src/utils/availability.ts:27-34 | the lock test on one booking; its contract is `Availability.LocksMatchMinutes` (no ensures of its own) |
| Availability.IsSlotLocked | src/utils/availability.ts:26-35 | `scheduledInterviews.some(...)`; its contract is `Availability.LockedMatchesMinutes` (no ensures of its own) |
| Availability.Covers | src/utils/availability.ts:41-43 | the inclusive containment test, also used for the candidate at lines 49-51; its contract is `Availability.CoversMatchMinutes` (no ensures of its own) |
| Availability.EngineerIsAvailable | src/utils/availability.ts:40-44 | `engineer.availability.some(...)`; its contract is `Availability.EngineerMatchesMinutes` (no ensures of its own) |
| Availability.IsTimeSlotAvailable | src/utils/availability.ts:15-54 | isTimeSlotAvailable; its contract is `Availability.AvailableMatchesMinutes` with the lemmas below (no ensures of its own) |
| Availability.LocksMatchMinutes | src/utils/availability.ts:26-35 | the string lock test on one booking holds exactly when, on the same day, booking start <= start < booking end or booking start < end <= booking end, in minutes |
| Availability.CoversMatchMinutes | src/utils/availability.ts:40-51 | the string containment test holds exactly when the window is on the day and contains [start, end] in minutes, both ends inclusive |
| Availability.LockedMatchesMinutes | src/utils/availability.ts:26-35 | `some` over the bookings holds exactly when some booking locks the slot in minutes |
| Availability.EngineerMatchesMinutes | src/utils/availability.ts:40-44 | `some` over the engineer's windows holds exactly when some window contains the slot in minutes |
| Availability.AvailableMatchesMinutes | src/utils/availability.ts:15-54 | on well-formed times, isTimeSlotAvailable holds exactly when the minute-based reading holds: no booking locks the slot, some engineer window contains it, and the preferred window contains it, with the end taken modulo one day |
| Availability.OnDay | src/utils/availability.ts:29 | the bookings kept are exactly those of the given day |
| Availability.OtherDaysIrrelevant | src/utils/availability.ts:29 | dropping every booking on another day leaves the result unchanged |
| Availability.BookingOtherDayIrrelevant | src/utils/availability.ts:29 | adding a booking on another day leaves the result unchanged |
| Availability.LockedSlotUnavailable | src/utils/availability.ts:26-37 | if a booking on the day has s <= start < e or s < end <= e, the slot is unavailable |
| Availability.AvailableImpliesWindows | src/utils/availability.ts:40-53 | an available slot lies, both ends inclusive, inside an engineer window on the day and inside the candidate's preferred window on the day |
| Availability.NoBookingsMeansWindows | src/utils/availability.ts:53 | with nothing booked, the slot is available exactly when an engineer window and the preferred window both contain it, an end equal to a window's end included |
| Availability.ContainedBookingIgnored | src/utils/availability.ts:31-32 | a booking strictly inside the new slot does not lock it: the result is the same as with nothing booked |
| Availability.MidnightCrossingAccepted | src/utils/availability.ts:23-51 | a slot shorter than a day that runs past midnight ends, on the clock, before its start, so windows that reach its start accept it |
| AvailabilityExamples.AvailableSlotExample | src/utils/__tests__/availability.test.ts:59-69 | Monday 10:00 for 30 minutes with nothing booked is available |
| AvailabilityExamples.ScheduledSlotExample | src/utils/__tests__/availability.test.ts:71-81 | Monday 09:00 for 30 minutes against the 09:00-09:30 booking is not available |
| AvailabilityExamples.OutsideEngineerExample | src/utils/__tests__/availability.test.ts:83-93 | Monday 13:00 for 30 minutes, outside the engineer's windows, is not available |
| AvailabilityExamples.OutsideCandidateExample | src/utils/__tests__/availability.test.ts:95-105 | Monday 11:30 for 30 minutes, outside the preferred window, is not available |
| AvailabilityExamples.BoundaryExample | src/utils/__tests__/availability.test.ts:107-120 | Monday 11:30 for 30 minutes, ending exactly where both windows end, is available |
| AvailabilityExamples.ContainedBookingExample | src/utils/availability.ts:31-32 | a booking at 09:15-09:45 does not lock a 09:00 slot of 60 minutes |
| Calendar.GenerateTimeSlots | src/components/Calendar.tsx:23-38 | the two loops return exactly the grid: entry k is the time k * duration minutes after 09:00 |
| Calendar.GridEntryAt | src/components/Calendar.tsx:28-34 | the string pushed for hour `hour` and interval `i` is grid entry (hour - 9) * (60 / duration) + i |
| Calendar.GridSize | src/components/Calendar.tsx:28-30 | the grid has 9 * (60 / duration) entries: 36, 18 or 9 |
| Calendar.GridFirst | src/components/Calendar.tsx:25-33 | the grid starts at "09:00" |
| Calendar.GridLast | src/components/Calendar.tsx:26-31 | the last entry is one duration before 18:00 |
| Calendar.GridStep | src/components/Calendar.tsx:28-33 | consecutive entries are `duration` minutes apart |
| Calendar.GridIncreasing | src/components/Calendar.tsx:28-35 | the grid is strictly increasing in string order |
| Calendar.GridEntryShape | src/components/Calendar.tsx:28-34 | each entry is a time of day with hour 09-17, k * duration minutes after 09:00 |
| Calendar.GridEntryMinutes | src/components/Calendar.tsx:31 | the minutes of each entry are a multiple of the duration |
| Calendar.GridWellFormed | src/components/Calendar.tsx:28-34 | every grid entry is a well-formed time of day with hour 09-17 and minutes a multiple of the duration |
| Calendar.CalendarEndTime | src/components/Calendar.tsx:42-48 | the calendar's end time, hours not reduced; its contract is `Calendar.CalendarEndTimeAdds` and the two lemmas after it (no ensures of its own) |
| Calendar.CalendarEndTimeAdds | src/components/Calendar.tsx:42-48 | the calendar's end time is plain addition: while the hour stays below 100 it reads back as start plus duration, past 23:59 included |
| Calendar.EndTimesAgreeBeforeMidnight | src/components/Calendar.tsx:42-48 | before midnight the calendar's end time equals the utility's |
| Calendar.EndTimesDifferPastMidnight | src/components/Calendar.tsx:42-48 | "23:45" + 30 is "24:15" in the calendar and "00:15" in the utility |
| Calendar.GridEndTime | src/components/Calendar.tsx:28-48 | for every grid entry the calendar's end time is well formed, not after "18:00", and equal to the utility's end time |
| Calendar.AvailableEngineers | src/components/Calendar.tsx:69-77 | the engineers kept are exactly those with a window containing the slot |
| Calendar.FindEngineer | src/components/Calendar.tsx:111-118 | None exactly when no engineer has a containing window; otherwise the first engineer in list order that has one |
| Calendar.IsSlotAvailable | src/components/Calendar.tsx:50-86 | isSlotAvailable; its contract is `Calendar.CellAvailability` and the lemmas after it (no ensures of its own) |
| Calendar.HandleClick | src/components/Calendar.tsx:110-129 | None exactly when no engineer has a containing window; otherwise the interview with the first such engineer in list order, the selected candidate, and the slot from the cell's time to the calendar's end time on that day |
| Calendar.NoCandidateNothingAvailable | src/components/Calendar.tsx:51 | with no candidate selected, no cell is available |
| Calendar.NoEngineersNothingAvailable | src/components/Calendar.tsx:69-84 | with no engineers, no cell is available |
| Calendar.CellAvailability | src/components/Calendar.tsx:50-86 | a cell is available exactly when a candidate is selected, no booking locks the slot, the preferred window contains it, and some engineer has a containing window |
| Calendar.GridCellMatchesSingleEngineer | src/components/Calendar.tsx:50-86 | on every grid entry, a cell is available exactly when a candidate is selected and isTimeSlotAvailable holds for at least one engineer |
| Calendar.ClickOnAvailableCell | src/components/Calendar.tsx:110-129 | clicking an available cell proposes an interview. Its engineer is the first in list order with a containing window. The candidate is the selected one. The slot is that day, from the cell's time to the calendar's end time |

## Left out

- The JSX rendering and the Chakra UI components are not modelled. This covers the grid markup, the day headers, the confirmation modal and the candidate and duration selectors. They are presentation only.
- The DAYS list is left out. It only chooses which day names are rendered, and every lemma holds for any day.
- `src/services/api.ts` is not modelled. It is network `fetch` calls and `Math.random`.
- `src/App.tsx` state handling is not modelled. This covers `useState`, the toast, and opening and confirming the modal. It is UI plumbing.
- App's duplicate `calculateEndTime` (`src/App.tsx:77-83`) is modelled once. It is the same computation as the calendar's, with the duration passed as a parameter instead of taken from the props, so `Calendar.CalendarEndTime` stands for both.
- Parsing malformed times is not modelled. `split(':').map(Number)` gives NaN on a malformed string. Every operation that parses a time requires a well-formed "HH:MM" string (`IsClock`).
- Durations are whole non-negative minutes (`nat`). The source's `number` parameter also admits negative and fractional values, which give malformed strings there (`"00:10"` minus 30 minutes gives `"-1:-20"`, half a minute after `"09:00"` gives `"09:0.5"`). No caller passes such values, and with `nat` JavaScript's truncating `%` never differs from Dafny's.
- Grid durations are limited to 15, 30 and 60, the values the calendar's props allow. Other values would give fractional loop bounds.
- The lock rule is kept as written, asymmetric, in both `Availability.IsTimeSlotAvailable` and `Calendar.IsSlotAvailable`. `Availability.ContainedBookingIgnored` states which booking it misses.
- Calendar.HandleClick: requires a selected candidate. The button is disabled whenever the cell is unavailable, which includes having no candidate. `selectedCandidate!` has no run-time check.
- Calendar.CalendarEndTimeAdds: stated only while the end hour stays below 100. Past that, the fixed five-character form no longer holds.
- Clock.Less: compares Dafny characters, where JavaScript compares UTF-16 code units. The two orders agree on the digits and colon of clock strings. Day names are only compared for equality.
- The callback `onSlotSelect` is not modelled as a call. `Calendar.HandleClick` returns the interview it would be passed.
