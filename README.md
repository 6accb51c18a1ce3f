# reasyV2 booking core, modelled in Dafny

reasyV2 is an Android app for booking time slots with businesses. This project models its booking logic and proves properties about it. That logic is spread over Compose screens and Room DAOs; the model lifts it out into plain functions, classes and lemmas:

- **Slot generator** (`SlotGenerator`, `SlotLabels`). The reservation screen's `generateTimeSlots` walks from opening time in steps of the business's reservation length. It emits one "available" slot per step while the next slot still ends by closing time. `MainActivity`'s variant uses a fixed 30-minute step, does not trim its input, and produces "HH:mm - HH:mm" strings. Times are minutes since midnight. `LocalTime.plusMinutes` is modelled with its wrap-around at midnight (`Clock.PlusMinutes`).
- **Slot store** (`TimeSlotDao`). This is the `timeslot` table, keyed by `tmsId`. It has a unique index on (business, date, start, end) and REPLACE inserts. `updateStatus` addresses a row by that 4-tuple. The screen materialises slots by check-then-insert (`Booking.MaterialiseSlots`).
- **Reservation and user stores** (`ReservationDao`, `UserDao`, over `RowTables`). Rows are kept in primary-key order, which is the order the app's unordered queries return them in. Key 0 asks AUTOINCREMENT for a fresh key.
- **Availability and booking** (`SlotAvailability`, `Booking`). This covers `isTimeSlotAvailable`, `TimeSlotCard`, `visibleDates` and the Reserve button. The Reserve button marks the slot "reserved" and then appends a pending reservation.
- **Reservation views** (`DateGroups`, `BusinessDashboard`, `ClientReservations`). These are the tab filters of both screens, the grouping by creation day with newest day first, `formatDate`, today's counts, and accept/decline.
- **Login and sign-up** (`Login`). `LoginViewModel` is modelled as a class whose two state fields go Initial → Loading → Success/Error.

Dates are day numbers, because zero-padded ISO dates compare like the days they name. Slot times stay "HH:mm" strings, because the unique index compares them as strings. `LocalDate.now()`, the logged-in user id and database exceptions are parameters.

Where the intended behaviour and the code differ, the model follows the code:
- `getTimeSlotsByBusinessAndDate` has no ORDER BY, so the model returns a set rather than a list in start-time order.
- Slot inserts use REPLACE, not insert-or-ignore.
- Availability reads only the first reservation for the slot; at most one active reservation per slot is intended, but the code does not guarantee it (see Findings).

## Model

| member | source | states |
|---|---|---|
| Clock.PlusMinutes | app/src/main/java/com/example/reasyv2/screens/ReservationScreen.kt:85-86 | `plusMinutes` is plain addition while it stays within the day, and loses exactly one day when it crosses midnight |
| Clock.FormatThenParse | app/src/main/java/com/example/reasyv2/screens/ReservationScreen.kt:91-92 | parsing reads back every time that "HH:mm" formatting writes |
| Clock.ParseThenFormat | app/src/main/java/com/example/reasyv2/data/entity/TimeSlotEntity.kt:23-24 | formatting writes back exactly the string that was parsed, so stored times are zero-padded both ways |
| Clock.FormatInjective | app/src/main/java/com/example/reasyv2/data/entity/TimeSlotEntity.kt:22-24 | two times give equal "HH:mm" strings if and only if they are equal, so string keys match exactly when the times do |
| Clock.SplitNone | app/src/main/java/com/example/reasyv2/screens/ReservationScreen.kt:81 | `split("-")` of a string without a dash is that one string |
| Clock.SplitFirst | app/src/main/java/com/example/reasyv2/screens/ReservationScreen.kt:81 | `split("-")` cuts at the first dash: the part before it, then the parts of the rest |
| Clock.ParseAllMeaning | app/src/main/java/com/example/reasyv2/screens/ReservationScreen.kt:81 | `map` with a throwing parse succeeds if and only if every part parses, then gives each part's value in order; otherwise it fails on the first part that does not parse |
| Clock.ParsePartsMeaning | app/src/main/java/com/example/reasyv2/screens/ReservationScreen.kt:81 | `map { LocalTime.parse }` over the working-hours parts succeeds if and only if every (optionally trimmed) part parses, returns each part's time in order, and otherwise names the first part that fails |
| Clock.WorkingHoursRoundTrip | app/src/main/java/com/example/reasyv2/screens/ReservationScreen.kt:81 | working hours written as "HH:mm-HH:mm" parse back to the same opening and closing times, trimmed or not |
| Clock.TrimUntouched | app/src/main/java/com/example/reasyv2/screens/ReservationScreen.kt:81 | `trim()` leaves a string with no whitespace at either end unchanged |
| SlotGenerator.GenerateTimeSlots | app/src/main/java/com/example/reasyv2/screens/ReservationScreen.kt:79-100 | for every input: fails exactly when the working hours do not parse (with that error); otherwise finishes with one "available" slot per pass the written guard admits and stops where it first fails, or is `Endless` exactly when the guard never fails; on a window walked without wrapping at midnight it finishes with the slots of `Intervals` |
| SlotGenerator.WalkSlots | app/src/main/java/com/example/reasyv2/screens/ReservationScreen.kt:84-97 | for any window and any step: the loop adds the slot (current, current.plusMinutes(d)) for each pass while the wrapped guard holds and stops on the first pass where it fails; `Endless` if and only if the guard holds on every pass |
| SlotGenerator.CursorClosed | app/src/main/java/com/example/reasyv2/screens/ReservationScreen.kt:86-96 | after k passes the loop variable is open + k·d reduced to the day |
| SlotGenerator.CursorPeriodic | app/src/main/java/com/example/reasyv2/screens/ReservationScreen.kt:86-96 | the loop variable repeats with period 1440 passes |
| SlotGenerator.NeverStops | app/src/main/java/com/example/reasyv2/screens/ReservationScreen.kt:85 | a guard that holds on 1440 consecutive passes from the start holds on every pass, so the loop never returns |
| SlotGenerator.StopsOnce | app/src/main/java/com/example/reasyv2/screens/ReservationScreen.kt:85 | the number of passes after which the loop stops is unique |
| SlotGenerator.WrittenWalkIsIntervals | app/src/main/java/com/example/reasyv2/screens/ReservationScreen.kt:84-97 | on a window walked without wrapping at midnight, the written loop stops after exactly the passes of `Intervals` and walks exactly its intervals |
| SlotGenerator.IntervalsCount | app/src/main/java/com/example/reasyv2/screens/ReservationScreen.kt:84-97 | the slot count n is the number of whole steps that fit (n·d ≤ close−open < (n+1)·d); there are no slots when open > close, and none exactly when close < open + d |
| SlotGenerator.CountSteps | app/src/main/java/com/example/reasyv2/screens/ReservationScreen.kt:84-97 | a window holding n whole steps with less than one step left over has exactly n slots |
| SlotGenerator.IntervalsShape | app/src/main/java/com/example/reasyv2/screens/ReservationScreen.kt:84-97 | slot i runs from open + i·d for exactly d minutes; every slot ends by closing time; after the last one, less than d minutes remain |
| SlotGenerator.Contiguous | app/src/main/java/com/example/reasyv2/screens/ReservationScreen.kt:96 | each slot starts where the previous one ended |
| SlotGenerator.IntervalsWithin | app/src/main/java/com/example/reasyv2/screens/ReservationScreen.kt:85 | every slot lies within [open, close] and ends after it starts |
| SlotGenerator.LastStartFollows | app/src/main/java/com/example/reasyv2/screens/ReservationScreen.kt:84-97 | the loop variable stops at open + n·d, where n is the slot count |
| SlotGenerator.GeneratedSlots | app/src/main/java/com/example/reasyv2/screens/ReservationScreen.kt:88-94 | every generated slot is a new row (key 0) with status "available", the business's id and the selected date; no two share the unique (business, date, start, end) key |
| SlotGenerator.HalfHoursNeverStop | app/src/main/java/com/example/reasyv2/screens/ReservationScreen.kt:85 | with closing time 23:45 and 30-minute slots, every whole half hour passes the written guard and steps to another whole half hour |
| SlotGenerator.WrapPastMidnight | app/src/main/java/com/example/reasyv2/screens/ReservationScreen.kt:85-86 | "09:00-23:45" parses, at 23:30 the written guard admits a slot ending at 00:00, the window fails `NoWrap`, and with 30-minute steps the guard holds on every pass, so the loop never stops |
| SlotGenerator.HalfHourCursor | app/src/main/java/com/example/reasyv2/screens/ReservationScreen.kt:86-96 | from 09:00 in 30-minute steps the loop variable is always a whole half hour |
| SlotGenerator.OvernightHours | app/src/main/java/com/example/reasyv2/screens/ReservationScreen.kt:81 | "23:50-09:00" parses to a window that closes before it opens |
| SlotGenerator.OvernightWindow | app/src/main/java/com/example/reasyv2/screens/ReservationScreen.kt:84-97 | from 23:50 to 09:00 in 30-minute steps the written loop stops after 18 passes, from (23:50, 00:20) to (08:20, 08:50): a wrapping window that stops, with slots crossing midnight |
| SlotGenerator.NegativeStep | app/src/main/java/com/example/reasyv2/screens/ReservationScreen.kt:84-97 | with a step of −30 minutes from 09:00 to 17:00 the written loop stops after 18 passes, from (09:00, 08:30) to (00:30, 00:00): each slot ends before it starts |
| SlotGenerator.WalkSlotsWithinDay | app/src/main/java/com/example/reasyv2/screens/ReservationScreen.kt:84-97 | with the guard compared without wrapping, the walk needs no precondition on the window and adds exactly the slots of `Intervals` |
| SlotGenerator.GenerateTimeSlotsWithinDay | app/src/main/java/com/example/reasyv2/screens/ReservationScreen.kt:79-100 | the corrected generator fails exactly when the working hours do not parse, and otherwise stops with the slots of `Intervals`; on a window the written loop walks without wrapping, those are exactly the slots of the written loop's run |
| SlotGenerator.Schedule | app/src/main/java/com/example/reasyv2/screens/ReservationScreen.kt:81-85 | a window written as text parses back, has n slots, and stays within the day exactly when the step after the last slot does |
| SlotGenerator.BellaItaliaSchedule | app/src/main/java/com/example/reasyv2/data/ReasyDatabase.kt:62-63 | "09:00-17:00" with 30 minutes gives 16 slots, 09:00-09:30 to 16:30-17:00, none crossing midnight |
| SlotGenerator.SushiMasterSchedule | app/src/main/java/com/example/reasyv2/data/ReasyDatabase.kt:77-78 | "10:00-18:00" with 30 minutes gives 16 slots |
| SlotGenerator.GrandHotelSchedule | app/src/main/java/com/example/reasyv2/data/ReasyDatabase.kt:91-92 | "09:00-18:00" with 60 minutes gives 9 slots |
| SlotGenerator.StyleStudioSchedule | app/src/main/java/com/example/reasyv2/data/ReasyDatabase.kt:106-107 | "10:00-19:00" with 60 minutes gives 9 slots |
| SlotLabels.GenerateLabels | app/src/main/java/com/example/reasyv2/MainActivity.kt:70-82 | for every input: fails exactly when the untrimmed parts do not parse; otherwise labels each pass of the loop whose guard is `isBefore(end) \|\| == end` (that is, `<= end`) up to where it first fails, or is `Endless` exactly when it never fails; on a window walked without wrapping it gives the labels of the 30-minute `Intervals` |
| SlotLabels.LabelsAreCardTexts | app/src/main/java/com/example/reasyv2/MainActivity.kt:77-79 | each label is "start - end" as the reservation screen's card writes it for the matching generated slot, and each label starts at the time the previous one ends |
| SlotLabels.SpacedParts | app/src/main/java/com/example/reasyv2/MainActivity.kt:72 | splitting "HH:mm - HH:mm" at the dash keeps the spaces in both parts |
| SlotLabels.TrimSpaced | app/src/main/java/com/example/reasyv2/screens/ReservationScreen.kt:81 | trimming removes those spaces again |
| SlotLabels.SpacedHours | app/src/main/java/com/example/reasyv2/MainActivity.kt:72 | a window with spaces around the dash is a parse error for the untrimmed variant, but reads correctly when parts are trimmed |
| SlotLabels.SpacedSeedHours | app/src/main/java/com/example/reasyv2/MainActivity.kt:72 | "09:00 - 17:00" fails untrimmed on the part "09:00 " and reads as 09:00 to 17:00 when trimmed |
| TimeSlotDao.AtMostOneWithKey | app/src/main/java/com/example/reasyv2/data/entity/TimeSlotEntity.kt:17 | under the unique index at most one row carries a 4-tuple, and exactly one does when some row has it |
| TimeSlotDao.WithStatusFrame | app/src/main/java/com/example/reasyv2/data/dao/TimeSlotDao.kt:23-24 | `updateStatus` keeps the table invariant and every key; it changes only the status of the row with that 4-tuple, and nothing when no row has it |
| TimeSlotDao.TimeSlotTable.IsTimeSlotExists | app/src/main/java/com/example/reasyv2/data/dao/TimeSlotDao.kt:14-15 | the count of rows with the 4-tuple, which is 0 or 1, and 1 exactly when some row has it |
| TimeSlotDao.TimeSlotTable.InsertTimeSlot | app/src/main/java/com/example/reasyv2/data/dao/TimeSlotDao.kt:17-18 | REPLACE removes the rows clashing on key or 4-tuple and stores the slot under its key (a fresh one for key 0); afterwards exactly one row has the slot's 4-tuple, the new one, and every other row is unchanged |
| TimeSlotDao.TimeSlotTable.UpdateTimeSlot | app/src/main/java/com/example/reasyv2/data/dao/TimeSlotDao.kt:20-21 | rewrites the row with the same key; an update that would break the unique index aborts and changes nothing |
| TimeSlotDao.TimeSlotTable.UpdateStatus | app/src/main/java/com/example/reasyv2/data/dao/TimeSlotDao.kt:23-24 | the table becomes `WithStatus` of the old one: only the status of the row with that 4-tuple changes |
| TimeSlotDao.TimeSlotTable.DeleteTimeSlot | app/src/main/java/com/example/reasyv2/data/dao/TimeSlotDao.kt:26-27 | removes the row with that key and no other |
| TimeSlotDao.TimeSlotTable.GetTimeSlotById | app/src/main/java/com/example/reasyv2/data/dao/TimeSlotDao.kt:29-30 | the row stored under the id, or null when there is none |
| TimeSlotDao.TimeSlotTable.GetTimeSlotsByBusinessAndDate | app/src/main/java/com/example/reasyv2/data/dao/TimeSlotDao.kt:32-33 | exactly the rows of that business on that date, in no particular order |
| TimeSlotDao.TimeSlotTable.HasTimeSlotsForDate | app/src/main/java/com/example/reasyv2/data/dao/TimeSlotDao.kt:38-39 | true if and only if the business has some row on that date |
| TimeSlotDao.TimeSlotTable.GetTimeSlotStatus | app/src/main/java/com/example/reasyv2/data/dao/TimeSlotDao.kt:41-42 | the status of the row with the 4-tuple, or null exactly when no row has it |
| RowTables.AssignedId | app/src/main/java/com/example/reasyv2/data/entity/TimeSlotEntity.kt:20 | a non-zero key is stored as given; key 0 takes the next AUTOINCREMENT key |
| RowTables.NextIdAfter | app/src/main/java/com/example/reasyv2/data/entity/TimeSlotEntity.kt:20 | AUTOINCREMENT never goes back, always moves past the stored key, and does not move for a key below it |
| RowTables.Upsert | app/src/main/java/com/example/reasyv2/data/dao/ReservationDao.kt:13-14 | INSERT OR REPLACE keeps keys ascending and unique; the row is present, and every other row survives unless it had the same key |
| RowTables.UpsertFreshAppends | app/src/main/java/com/example/reasyv2/data/dao/ReservationDao.kt:13-14 | a row whose key is above all keys in use is appended at the end |
| RowTables.FilterKeepsAscending | app/src/main/java/com/example/reasyv2/data/dao/ReservationDao.kt:28-29 | a query's `filter` over a table in ascending key order returns its rows in that order |
| RowTables.AscendingDetermined | app/src/main/java/com/example/reasyv2/data/dao/ReservationDao.kt:28-29 | two lists in ascending key order with the same rows, counted with multiplicity, are equal, so order and counts fix a query's result |
| RowTables.RemoveById | app/src/main/java/com/example/reasyv2/data/dao/ReservationDao.kt:19-20 | deletion removes every row with that key and keeps all the others, still in ascending key order |
| RowTables.FindById | app/src/main/java/com/example/reasyv2/data/dao/ReservationDao.kt:22-23 | the row with that key, or null exactly when no row has it |
| ReservationDao.GetReservationById | app/src/main/java/com/example/reasyv2/data/dao/ReservationDao.kt:22-23 | the reservation with that key, or null exactly when there is none |
| ReservationDao.GetReservationsByClient | app/src/main/java/com/example/reasyv2/data/dao/ReservationDao.kt:25-26 | exactly the rows of that client, each as often as in the table, and in the table's ascending key order |
| ReservationDao.GetReservationsByBusiness | app/src/main/java/com/example/reasyv2/data/dao/ReservationDao.kt:28-29 | exactly the rows of that business, each as often as in the table, and in the table's ascending key order, which decides the reservation `find` sees first |
| ReservationDao.BusinessListDetermined | app/src/main/java/com/example/reasyv2/data/dao/ReservationDao.kt:28-29 | those two clauses fix the list: any list in key order with exactly the business's rows is the query's result |
| ReservationDao.GetReservationsByTimeSlot | app/src/main/java/com/example/reasyv2/data/dao/ReservationDao.kt:31-32 | exactly the rows for that slot, each as often as in the table, and in the table's ascending key order |
| ReservationDao.ReservationTable.InsertReservation | app/src/main/java/com/example/reasyv2/data/dao/ReservationDao.kt:13-14 | REPLACE on the key; key 0 appends the reservation under the next key and returns that key |
| ReservationDao.ReservationTable.UpdateReservation | app/src/main/java/com/example/reasyv2/data/dao/ReservationDao.kt:16-17 | only the row with the same key is rewritten; every other row is unchanged |
| ReservationDao.ReservationTable.DeleteReservation | app/src/main/java/com/example/reasyv2/data/dao/ReservationDao.kt:19-20 | only the row with that key is removed |
| UserDao.AuthenticateUser | app/src/main/java/com/example/reasyv2/data/dao/UserDao.kt:25-26 | a row whose username and password both match, or null exactly when no row matches both |
| UserDao.GetUserById | app/src/main/java/com/example/reasyv2/data/dao/UserDao.kt:22-23 | the user with that key, or null exactly when there is none |
| UserDao.UserTable.InsertUser | app/src/main/java/com/example/reasyv2/data/dao/UserDao.kt:13-14 | REPLACE on the key; key 0 appends the user under a fresh positive key and returns it |
| UserDao.UserTable.UpdateUser | app/src/main/java/com/example/reasyv2/data/dao/UserDao.kt:16-17 | only the row with the same key is rewritten |
| UserDao.UserTable.DeleteUser | app/src/main/java/com/example/reasyv2/data/dao/UserDao.kt:19-20 | only the row with that key is removed |
| Seqs.Filter | app/src/main/java/com/example/reasyv2/screens/BusinessMainScreen.kt:162 | `filter` keeps exactly the elements that satisfy the predicate, each as often as it occurs, and adds nothing |
| Seqs.FilterAppend | app/src/main/java/com/example/reasyv2/screens/BusinessMainScreen.kt:162 | filtering a concatenation is concatenating the filtered parts |
| Seqs.Find | app/src/main/java/com/example/reasyv2/screens/ReservationScreen.kt:116 | `find` returns null exactly when nothing matches, and otherwise the first match |
| Seqs.FindAppend | app/src/main/java/com/example/reasyv2/screens/ReservationScreen.kt:116 | elements after a match do not change what `find` returns |
| SlotAvailability.IsTimeSlotAvailable | app/src/main/java/com/example/reasyv2/screens/ReservationScreen.kt:115-122 | a slot is available if and only if no reservation in the list is for it, or the first one that is was declined; the slot's own status is not an input |
| SlotAvailability.LaterReservationsIgnored | app/src/main/java/com/example/reasyv2/screens/ReservationScreen.kt:116 | once the list has a reservation for the slot, reservations appended after it never change the answer |
| SlotAvailability.TimeSlotCard | app/src/main/java/com/example/reasyv2/screens/ReservationScreen.kt:370-409 | the card is enabled exactly when `isTimeSlotAvailable` holds; it shows "start - end" and, only when taken, "Pending", "Reserved" or "Unavailable" for a first reservation that is pending, accepted or anything else |
| SlotAvailability.DaysFrom | app/src/main/java/com/example/reasyv2/screens/ReservationScreen.kt:71-75 | the days of a range that are not before today, strictly ascending, all of them, at most one per day of the range |
| SlotAvailability.VisibleDates | app/src/main/java/com/example/reasyv2/screens/ReservationScreen.kt:70-76 | a date is shown if and only if it is within three days of the selected one and not before today; dates ascend, at most 7, all 7 when the earliest is not before today |
| SlotAvailability.FreeIsAvailable | app/src/main/java/com/example/reasyv2/screens/ReservationScreen.kt:115-122 | a slot all of whose reservations were declined is shown as available |
| SlotAvailability.BookingFreeSlotKeepsOneActive | app/src/main/java/com/example/reasyv2/screens/ReservationScreen.kt:208-222 | appending a reservation for a slot whose reservations were all declined keeps at most one live reservation per slot |
| SlotAvailability.DeclinedHidesPending | app/src/main/java/com/example/reasyv2/screens/ReservationScreen.kt:116-119 | with [declined, pending] for a slot, the slot shows as available and one more booking gives it two live reservations; the corrected rule refuses the booking |
| Booking.InsertIfAbsentFrame | app/src/main/java/com/example/reasyv2/screens/ReservationScreen.kt:128-135 | one check-then-insert step of a new slot keeps the table invariant and every existing row, and leaves a row with the slot's 4-tuple |
| Booking.MaterialisedCovers | app/src/main/java/com/example/reasyv2/screens/ReservationScreen.kt:124-137 | materialising new slots keeps the invariant and every existing row, leaves a row for every generated slot, and writes only known statuses |
| Booking.MaterialisedPresent | app/src/main/java/com/example/reasyv2/screens/ReservationScreen.kt:128-135 | when every slot's 4-tuple is already present, materialising changes nothing |
| Booking.MaterialiseIdempotent | app/src/main/java/com/example/reasyv2/screens/ReservationScreen.kt:124-137 | materialising the same generated slots again adds nothing |
| Booking.MaterialiseSlots | app/src/main/java/com/example/reasyv2/screens/ReservationScreen.kt:124-138 | the loop over the slots, asking `isTimeSlotExists` and inserting on count 0, leaves the table `Materialised` from the old one |
| Booking.ClientOf | app/src/main/java/com/example/reasyv2/screens/ReservationScreen.kt:216 | the reservation's client is never the "nobody logged in" id -1; a logged-in user books for themselves |
| Booking.ReserveEnabled | app/src/main/java/com/example/reasyv2/screens/ReservationScreen.kt:242 | for a selected slot the button agrees with the slot card; it is never enabled while the slot's first reservation is pending or accepted, and always enabled for a selected slot nobody has booked |
| Booking.Reserve | app/src/main/java/com/example/reasyv2/screens/ReservationScreen.kt:205-236 | books exactly when the button is enabled: the row with the slot's 4-tuple gets "reserved", then one pending reservation for that slot, business and client, made today, is appended under the next key; otherwise neither table changes |
| Booking.ReserveFreeSlot | app/src/main/java/com/example/reasyv2/screens/ReservationScreen.kt:205-242 | the corrected button books exactly when every reservation for the slot in the business's list was declined, with the same writes as Reserve; a business list with at most one live reservation per slot keeps that property |
| Booking.BusinessListAppend | app/src/main/java/com/example/reasyv2/data/dao/ReservationDao.kt:28-29 | appending a reservation of the business appends it to the business's list |
| Booking.FirstBookingTakesSlot | app/src/main/java/com/example/reasyv2/screens/ReservationScreen.kt:207-222 | after the first booking of a slot, the slot is no longer shown as available |
| Booking.CorrectedBookingKeepsOneActive | app/src/main/java/com/example/reasyv2/screens/ReservationScreen.kt:208 | booking under the corrected guard keeps at most one live reservation per slot in the business's list |
| Booking.BookingKeepsStatusesKnown | app/src/main/java/com/example/reasyv2/data/entity/TimeSlotEntity.kt:25 | booking writes only a known status ("reserved") into the slot table |
| DateGroups.InsertDescending | app/src/main/java/com/example/reasyv2/screens/BusinessMainScreen.kt:172 | inserting a date into a strictly descending list keeps it strictly descending and adds exactly that date |
| DateGroups.SortedDescending | app/src/main/java/com/example/reasyv2/screens/BusinessMainScreen.kt:172 | `sortedDescending()` of the group keys is strictly descending and holds exactly the keys |
| DateGroups.GroupedShape | app/src/main/java/com/example/reasyv2/screens/BusinessMainScreen.kt:169-185 | group dates strictly descend; no group is empty; a group holds only the list's reservations made on its day; every reservation is in the group of its day |
| DateGroups.GroupedPartition | app/src/main/java/com/example/reasyv2/screens/ClientReservationsScreen.kt:122-137 | the group sizes add up to the length of the list, so the groups partition it |
| DateGroups.ListedUnderAll | app/src/main/java/com/example/reasyv2/screens/ClientReservationsScreen.kt:122 | over distinct days covering the list, each reservation is counted exactly once |
| DateGroups.FormatDate | app/src/main/java/com/example/reasyv2/screens/BusinessMainScreen.kt:457-467 | "Today", "Yesterday" and "Tomorrow" exactly for offsets 0, −1 and +1, otherwise the date itself (the same function is at ClientReservationsScreen.kt:212-221) |
| BusinessDashboard.TabOf | app/src/main/java/com/example/reasyv2/screens/BusinessMainScreen.kt:164-167 | tab 0 is Pending, tab 1 is Accepted, any other is Past |
| BusinessDashboard.TabReservations | app/src/main/java/com/example/reasyv2/screens/BusinessMainScreen.kt:162-168 | exactly the reservations of the list that belong to the selected tab, each as often as in the list, and kept in key order when the list is |
| BusinessDashboard.TabsPartition | app/src/main/java/com/example/reasyv2/screens/BusinessMainScreen.kt:164-168 | the three tabs are pairwise disjoint; Past is exactly "made before today"; a declined reservation made today or later is in no tab |
| BusinessDashboard.ShowActions | app/src/main/java/com/example/reasyv2/screens/BusinessMainScreen.kt:208 | accept and decline are shown only on the Pending tab |
| BusinessDashboard.ActionsOnlyOnPending | app/src/main/java/com/example/reasyv2/screens/BusinessMainScreen.kt:184-208 | every reservation shown with accept and decline is a pending reservation of the list, made today or later |
| BusinessDashboard.Respond | app/src/main/java/com/example/reasyv2/screens/BusinessMainScreen.kt:194-204 | accept and decline set the status to "accepted" or "declined" and change no other field |
| BusinessDashboard.RespondToReservation | app/src/main/java/com/example/reasyv2/screens/BusinessMainScreen.kt:192-206 | the row with the reservation's key gets the new status; no other row changes |
| BusinessDashboard.StatsBounded | app/src/main/java/com/example/reasyv2/screens/BusinessMainScreen.kt:307-311 | today's accepted, pending and declined counts add up to at most the number of reservations made today |
| BusinessDashboard.SelectBusiness | app/src/main/java/com/example/reasyv2/screens/BusinessMainScreen.kt:69-73 | with nothing selected and some businesses, the first is selected; a selection is kept; nothing is selected only with neither |
| ClientReservations.TabOf | app/src/main/java/com/example/reasyv2/screens/ClientReservationsScreen.kt:116-120 | tab 0 is Upcoming, tab 1 is Past, any other is Declined |
| ClientReservations.TabReservations | app/src/main/java/com/example/reasyv2/screens/ClientReservationsScreen.kt:114-121 | exactly the reservations of the list that belong to the selected tab, each as often as in the list, and kept in key order when the list is |
| ClientReservations.TabsOverlap | app/src/main/java/com/example/reasyv2/screens/ClientReservationsScreen.kt:116-121 | Upcoming is disjoint from Past and from Declined; Past and Declined share exactly the declined reservations made before today; every pending, accepted or declined reservation is in some tab |
| ClientReservations.UpcomingShowsLive | app/src/main/java/com/example/reasyv2/screens/ClientReservationsScreen.kt:117-137 | everything shown under Upcoming is pending or accepted, made today or later, and under the heading of its own day |
| Login.LoginOutcome | app/src/main/java/com/example/reasyv2/viewmodel/LoginViewModel.kt:24-39 | never Initial or Loading; Success if and only if the lookup finds an account whose role matches the mode, and then with that account; "Invalid username or password" exactly when nothing matches; "Invalid user type for selected login mode" when an account matches but its role is not the mode's; "Login failed: " plus the message when the lookup throws |
| Login.LoginViewModel.constructor | app/src/main/java/com/example/reasyv2/viewmodel/LoginViewModel.kt:14-17 | both state machines start in Initial |
| Login.LoginViewModel.Login | app/src/main/java/com/example/reasyv2/viewmodel/LoginViewModel.kt:20-41 | after passing through Loading, the login state is `LoginOutcome`; the sign-up state and the user table do not change |
| Login.LoginViewModel.SignUp | app/src/main/java/com/example/reasyv2/viewmodel/LoginViewModel.kt:43-72 | ends in neither Initial nor Loading. "Username already exists" (table unchanged) only when an account has the same username and password. Otherwise the new account (role from the mode) is appended under the next key and the state is Success with key 0. "Failed to create account" never occurs |
| Login.LoginViewModel.SignUpChecked | app/src/main/java/com/example/reasyv2/viewmodel/LoginViewModel.kt:43-72 | the corrected sign-up refuses with "Username already exists" exactly when an account has the username, whatever its password, and otherwise behaves as signUp; unique usernames stay unique |
| Login.SignUpThenLogIn | app/src/main/java/com/example/reasyv2/viewmodel/LoginViewModel.kt:49-64 | after a sign-up, logging in with the same credentials and mode succeeds with the stored account |
| Login.TakenUsernameSignsUpAgain | app/src/main/java/com/example/reasyv2/viewmodel/LoginViewModel.kt:48-53 | a taken username with another password passes the check, and the sign-up creates a second account with that username |
| Login.CheckedSignUpKeepsUsernamesUnique | app/src/main/java/com/example/reasyv2/viewmodel/LoginViewModel.kt:48-53 | with the check on the username alone, appending the new account keeps usernames unique |
| Login.CheckedRefusesMore | app/src/main/java/com/example/reasyv2/viewmodel/LoginViewModel.kt:49-50 | every sign-up the written check refuses is also refused by the username-only check |

## Left out

- Compose rendering, colours, toasts, navigation and the `onReservationComplete`/`onRefresh` callbacks are UI and are not modelled.
- Coroutines, `LaunchedEffect` and LiveData snapshots are not modelled. Each operation is one atomic sequential step. The Reserve button reads the business's reservations straight from the table, so stale snapshots and the race between two clients booking the same slot are outside the model.
- The username and slot display caches filled in coroutines on both reservation screens are display-only and not modelled.
- `ReasyDatabase` (singleton, migrations, seeding) is I/O; its four seeded working hours appear only as concrete schedules.
- The repositories and view models other than `LoginViewModel` are one-line delegations to the DAOs, and the DAOs are modelled directly. `TimeSlotViewModel.isTimeSlotExists` (count > 0) is folded into `Booking.MaterialiseSlots`, which inserts on count 0.
- `getAllTimeSlots`, `getAllReservations` and `getAllUsers` are unfiltered `SELECT *` queries; the table fields themselves are those lists.
- Foreign keys and their cascades are database-engine behaviour and are not modelled.
- Business, reservation and user records keep only the fields the booking logic reads (no description, rating, category, address or phone).
- `LocalDate.now()`, the logged-in user id from shared preferences, and database exceptions are parameters. Dates are day numbers. The "EEEE, MMMM d" rendering of other dates is left as the date itself (`DateGroups.Formatted`).
- Clock.ParseHHmm: refuses "24:00", which Java's SMART resolver accepts as midnight; the model keeps hours below 24 so that a time of day is one number of minutes.
- Clock.IsWhitespace: covers ASCII whitespace only, not all of Kotlin's Unicode `isWhitespace`.
- Windows whose walk wraps at midnight are modelled as the source runs them: the loop variable wraps, and the loop either stops after some passes (slots crossing midnight included, as on "23:50-09:00") or never stops (`Endless`, as on "09:00-23:45" with 30 minutes). The pass counter that detects `Endless` is the model's own; it is sound because the loop variable repeats every 1440 passes.
- The relation to `Intervals` (slot count, contiguity, bounds) is proved only for windows the walk crosses without wrapping (`NoWrap`); on other windows the written loop's slots are described pass by pass (`Steps`) but not counted in closed form.
- SlotGenerator.GenerateTimeSlotsWithinDay: requires a positive reservation length. A zero or negative length is not a meaningful slot length, and on most windows the corrected loop would never stop on one. The written loop (`SlotGenerator.GenerateTimeSlots`, no precondition) is modelled for every step, including those: on "09:00-17:00" with −30 minutes its wrapping loop variable makes it stop after 18 passes, with slots that end before they start (`SlotGenerator.NegativeStep`).
- Login.LoginViewModel.SignUp: the `failure` parameter covers an exception from either DAO call. Both end in the same state with no row written, so one parameter stands for both.
- The password-confirmation check of the sign-up screen runs before `signUp` is called. The view model does not require it, so the model has no such precondition.
- `TimeSlotDao.TimeSlotTable.GetTimeSlotsByBusinessAndDate` returns a set: the query has no ORDER BY, so no start-time order is promised.
- Slot statuses are not constrained by the table: `updateStatus` accepts any string. `Booking.MaterialisedCovers` and `Booking.BookingKeepsStatusesKnown` show that the app itself writes only known ones.

## Findings

| source | as written | input that shows it | evidently intended | confidence | as-written member | corrected member |
|---|---|---|---|---|---|---|
| app/src/main/java/com/example/reasyv2/screens/ReservationScreen.kt:85 | the guard compares `current.plusMinutes(d)`, which wraps at midnight, with closing time | working hours "09:00-23:45" with 30-minute slots: at 23:30 the next end is 00:00 ≤ 23:45, so the loop adds (23:30, 00:00) and, every wrapped end being a whole half hour ≤ 23:30, never stops; "23:50-09:00" with 30 minutes stops after 18 slots starting with (23:50, 00:20) | stop once the next slot would end after closing time on the same day | not executed | SlotGenerator.WrapPastMidnight | SlotGenerator.GenerateTimeSlotsWithinDay |
| app/src/main/java/com/example/reasyv2/screens/ReservationScreen.kt:116-119 | availability looks only at the first reservation for the slot | reservations [declined, pending] for one slot: the slot shows as available, and booking it again leaves two live reservations for it | a slot is free only while every reservation for it is declined | not executed | SlotAvailability.DeclinedHidesPending | Booking.ReserveFreeSlot |
| app/src/main/java/com/example/reasyv2/viewmodel/LoginViewModel.kt:49-53 | the "Username already exists" check looks up username and password together | account ("ann", "secret") exists; signing up as ("ann", "other") creates a second account named "ann" | refuse a sign-up whose username is already taken | not executed | Login.TakenUsernameSignsUpAgain | Login.LoginViewModel.SignUpChecked |
