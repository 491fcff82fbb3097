# Polyclinic booking core in Dafny

This project models the core of the Polyclinic appointment system: a FastAPI
server (`main.py`) over SQLite tables, and its single-page browser client
(`static/app.js`).

**Server**
- Availability of a doctor on a date. A date exception takes precedence; then
  the first weekly rule for the weekday; then the default window, 08:00-22:00
  with capacity 10.
- The booking checks of `POST /visits` and `POST /visits/public`.
- The 30-minute public slot list.
- The crowd check and the per-slot load counter.
- The doctor's exception upsert.
- The one-time-code table: issue, verify, consume and clean up codes.
- Cancellation by signed-in users and by guests.
- Messages: read state, history and the conversation list.

**Client**
- The month calendar.
- The hourly time picker and the "HH:MM" → "HH:MM:SS" normalisation.
- The guest booking and cancellation wizards, with their guards.
- The 15-second resend countdown.
- Logout and the 401 path of `authFetch`.
- The chat sidebar, the unread badge and the chat actions.

**Modules**

| module | what it holds |
|---|---|
| `Wrappers` | `Option`; `Result`, an HTTP outcome carrying a status and a detail; `Delete`, the deletion of one table row |
| `TimeDate` | times as seconds since midnight; Gregorian dates and weekdays; the decimal formatting both sides use |
| `Availability` | the precedence rule, both booking checks, the slot walk |
| `Crowding` | `slot_load` and `check_crowding` |
| `Otp` | the `otps` table |
| `Accounts` | users, roles and `require_role` |
| `Messaging` | the `messages` table |
| `Bookings` | every route's decision, as a function of the tables it reads |
| `Clinic` | class `Store`: holds every table as a field, with one method per route |
| `TimeOptions`, `Calendar`, `Session`, `GuestWizard`, `Chat` | the client |

**How `Clinic.Store` is specified**
- Each route method's contract ties its result and the new tables to the
  decision function in `Bookings`.
- `Snapshot()` then states that no other table changes.
- `Store.Valid()` is preserved by every route: visit ids stay distinct, and
  messages stay in sending order.

**Inputs the model takes as parameters**
- The clock: `now` in UTC microseconds for codes, `LocalNow` for the slot list.
- The randomly drawn code: any six-digit string (`Clinic.IsOtpCode`).
- What a fetch answered.

## Model

| member | source | states |
|---|---|---|
| `Accounts.ActiveUser` | main.py:284-287 | an inactive account is refused with 400 "Inactive user"; an active one passes unchanged |
| `Accounts.RequireRole` | main.py:290-298 | the user passes iff active and its role is listed; 400 exactly when inactive, 403 exactly when active with an unlisted role |
| `Accounts.DoctorProfile` | main.py:1043-1045 | the profile found belongs to the user; none is found iff no profile has that user id |
| `Accounts.DisplayName` | main.py:1768-1771 | reference definition, no contract: a doctor's profile name, else the username; its property: `Messaging.ConversationsSound` |
| `TimeDate.HMS` | main.py:704 | hours, minutes and seconds are recovered from the seconds-since-midnight value |
| `TimeDate.DaysInMonth` | static/app.js:1013-1014 | 28 to 31 days; 29 exactly for February of a leap year |
| `TimeDate.Weekday` | main.py:727 | Python's `weekday()`, a value below 7 (0 = Monday) |
| `TimeDate.JsGetDay` | static/app.js:1018 | JavaScript's `getDay()`, a value below 7 (0 = Sunday) |
| `TimeDate.MondayFirstIsWeekday` | static/app.js:1018-1019 | the client's Sunday-first → Monday-first remap equals the server's `weekday()` on every date |
| `TimeDate.NextDay` | static/app.js:1013 | the following date is a valid date |
| `TimeDate.NextDayNumber` | static/app.js:1013-1014 | the day count rises by exactly one from each date to the next, so the 0th of the next month is the month's last day |
| `TimeDate.NatToString` | static/app.js:1038-1041 | `String(n)`: non-empty, digits only, one digit exactly below 10 |
| `TimeDate.ParseNatToString` | static/app.js:1038-1041 | reading the digits back gives the number |
| `TimeDate.NatToStringInjective` | static/app.js:1038-1041 | different numbers print differently |
| `TimeDate.Pad2` | static/app.js:1039-1040 | `padStart(2, '0')` gives two digits that read back as the number |
| `TimeDate.FormatHHMM` | main.py:1431 | `strftime("%H:%M")` is five characters with ':' in the middle |
| `TimeDate.ParseHMS` | main.py:704 | the zero-padded part of `strptime(…, "%H:%M:%S")`: a string it accepts has eight characters (what it accepts is stated by `TimeDate.SlotStringRoundTrip`) |
| `TimeDate.SlotStringRoundTrip` | main.py:1431 | a listed slot with ":00" appended parses back to the very time listed |
| `TimeDate.DateKeyInjective` | static/app.js:1038-1044 | distinct dates never share a cell key |
| `Availability.FirstException` | main.py:708-711 | `.first()` over exceptions: none iff no row matches (doctor, date); else the first row that does |
| `Availability.FindException` | main.py:708-711 | the position of the first exception row for (doctor, date), with no match before it, or the end when there is none; `set_exception` uses the same lookup at main.py:1050-1053 |
| `Availability.FindExceptionAt` | main.py:1050-1053 | the first matching row is the one found |
| `Availability.FirstExceptionAt` | main.py:708-711 | `.first()` gives the row at the first matching position |
| `Availability.FirstRule` | main.py:732-735 | `.first()` over weekly rules: none iff no row matches (doctor, weekday); else the first row that does |
| `Availability.HoursOf` | main.py:1386-1398 | reference definition, no contract: an exception, Cancelled or not, decides before the weekly rule, and both before the default; its properties: `Availability.ExceptionWins`, `Availability.WeeklyBeatsDefault`, `Availability.DefaultOnlyWithoutRules` |
| `Availability.ResolveHours` | main.py:1370-1398 | reference definition, no contract: the hours from the first exception and the first weekly rule for the date; its properties: `Availability.ExceptionWins`, `Availability.WeeklyBeatsDefault`, `Availability.DefaultOnlyWithoutRules`, `Bookings.UpsertExceptionTakesEffect` |
| `Availability.PublicAdmission` | main.py:1469-1503 | reference definition, no contract: the public booking check; its properties: `Availability.AdmissionMatchesWindow`, `Availability.AdmissionCapacity`, `Availability.OfferedSlotIsBookable` |
| `Availability.BookVisitAdmissionAsWritten` | main.py:706-752 | reference definition, no contract: the `book_visit` check as written, faulting inside an exception window; its property: `Availability.BookVisitExceptionWindowFails` |
| `Availability.BookVisitAdmission` | main.py:706-752 | reference definition, no contract: the corrected `book_visit` check; its properties: `Availability.AdmissionMatchesWindow`, `Availability.AdmissionCapacity`, `Availability.BookVisitExceptionWindowFails` |
| `Availability.SlotsFrom` | main.py:1408-1433 | reference definition, no contract: the `while curr <= end` walk; its property: `Availability.SlotsFromExactly` |
| `Availability.SlotTimes` | main.py:1386-1433 | reference definition, no contract: the slot list for the resolved hours; its properties: `Availability.SlotTimesExactly`, `Availability.OfferedSlotIsBookable` |
| `Availability.ExceptionWins` | main.py:1386-1398 | an exception for the date decides alone, whatever the weekly table holds; it means leave iff its status is Cancelled |
| `Availability.WeeklyBeatsDefault` | main.py:1392-1394 | without an exception, the first weekly rule for the weekday decides |
| `Availability.DefaultOnlyWithoutRules` | main.py:1395-1398 | the default window applies iff no exception and no weekly rule match |
| `Availability.ChainedWithin` | main.py:721 | Python's chained `start <= t <= end`: true iff both bounds exist and enclose t; it raises iff start is None, or start <= t with end None |
| `Availability.AdmissionMatchesWindow` | main.py:1469-1503 | the public check admits t iff t lies, bounds included, in the window the slot list walks; the corrected `book_visit` check admits the same times; both give leave iff the exception is Cancelled; both fault on the same inputs |
| `Availability.AdmissionCapacity` | main.py:737-749 | capacity is the weekly rule's own, 10 under the default window, and 1 inside a public exception window |
| `Availability.BookVisitExceptionWindowFails` | main.py:716-729 | as written, an Added exception 09:00-17:00 makes a 10:00 booking fail, where the corrected check admits it |
| `Availability.SlotsFromExactly` | main.py:1419-1433 | the walk from a grid point lists exactly the on-grid, unoccupied, not-past times at or after it, up to end inclusive, in strictly increasing order |
| `Availability.SlotTimesExactly` | main.py:1386-1433 | the public slots are exactly start + k·30 min ≤ end that are neither occupied nor, today, before the current time; strictly increasing; none on leave or without a window |
| `Availability.OfferedSlotIsBookable` | main.py:1419-1431 | a listed slot, sent back as "HH:MM:00", parses to itself and passes the public booking check |
| `Bookings.StrictModeScenario` | repro_availability.py:50-88 | with nothing set 10:00 books with capacity 10; after a 14:00-15:00 rule 10:00 is refused and 14:00 books with capacity 5 |
| `Crowding.FirstLoadIndex` | main.py:683-686 | the first row for (date, slot), with no match before it |
| `Crowding.UpdateSlotLoad` | main.py:682-698 | one more patient for (date, slot); an existing row keeps its position and capacity, a missing one is appended with 1 patient and `max_cap`; no other row changes |
| `Crowding.FirstLoadIndexUnique` | main.py:683-686 | the first matching row is the only row with no match before it |
| `Crowding.DayLoads` | main.py:647 | the day's rows are exactly the rows with that date |
| `Crowding.DayLoadsCounts` | main.py:647 | each row with that date is kept as often as the table holds it, and no other, so the length is the count the mean and stdev divide by |
| `Crowding.DayLoadsAppend` | main.py:647 | the day's rows keep table order: the filter distributes over concatenation |
| `Crowding.Variance` | main.py:667 | `stdev ** 2` is the non-negative sample variance |
| `Crowding.AboveMeanPlusStdevMeans` | main.py:675 | squaring out the standard deviation decides `current + 1 > mean + stdev` exactly |
| `Crowding.BelowMean` | main.py:677 | at most one suggestion per row (which ones: `Crowding.BelowMeanExactly`) |
| `Crowding.CheckCrowding` | main.py:640-680 | crowded iff there are at least 2 rows for the day, at least 5 patients on the target, and one more lies above mean + stdev; then the suggestions are the below-mean slots; not crowded means no suggestions |
| `Crowding.BelowMeanExactly` | main.py:677 | a time is suggested iff some row at that time lies below the mean |
| `Crowding.BelowMeanInIntegers` | main.py:677 | "below the mean" is `count · n < sum` in integers |
| `Crowding.SuggestionsBelowMean` | main.py:675-678 | a crowded verdict suggests exactly the day's slots whose count is below the mean |
| `Crowding.UniformDayIsCrowdedWithoutSuggestions` | main.py:659-678 | two slots with equal load of at least 5: booking one is crowded, yet there is nothing to suggest |
| `Crowding.DayLoadCount` | main.py:647-658 | the crowd check reads the same target count as the counter keeps |
| `Crowding.UpdateRaisesCrowdCount` | main.py:682-698 | after `update_slot_load` the crowd check sees exactly one more patient on that slot |
| `Otp.Strip` | main.py:1287 | `str.strip()`: the input minus whitespace runs at both ends, and no whitespace left at either end |
| `Otp.FirstUsable` | main.py:1321-1325 | a code with the same email and code and `expires_at > now`, with no such code before it; past the end iff there is none |
| `Otp.Cleanup` | main.py:51-60 | cleanup keeps exactly the codes with `expires_at >= now` |
| `Otp.CleanupCounts` | main.py:51-60 | each code with `expires_at >= now` is kept as often as the table holds it, and no expired one |
| `Otp.CleanupAppend` | main.py:51-60 | cleanup keeps table order: it distributes over concatenation |
| `Otp.IssuedCodeLifetime` | main.py:1294-1301 | a freshly issued code is usable iff checked strictly before issue time + 10 minutes |
| `Otp.Issue` | main.py:1294-1301 | reference definition, no contract: a new code row for the address, expiring ten minutes after issue; its properties: `Otp.IssuedCodeLifetime`, `Bookings.IssuedCodeBooks` |
| `Otp.CleanupKeepsUsable` | main.py:54 | cleanup never removes a code that is usable at its own time or later |
| `Otp.ExpiryBoundary` | main.py:54 | a code expiring at the current instant is no longer usable, yet cleanup keeps it |
| `Otp.ConsumedCodeIsGone` | main.py:1338 | a code consumed once is found no more, unless another copy was issued |
| `Bookings.FindVisit` | main.py:1087-1089 | the first visit with that id; past the end iff there is none |
| `Bookings.NextVisitId` | main.py:132 | a new visit id is positive and not in use |
| `Wrappers.Delete` | main.py:1112 | deleting a row (a visit, or a code at main.py:1338) removes exactly that row and keeps the rest |
| `Bookings.VisitIdsStayDistinct` | main.py:765-774 | adding under a fresh id and deleting both keep visit ids distinct; a deleted id is no longer found |
| `Bookings.OccupiedTimes` | main.py:1413-1417 | occupied times: exactly the times of the doctor's visits on that date |
| `Bookings.Refusal` | main.py:716-752 | admitted iff Ok, with its capacity; leave is 400 "Doctor is on leave"; not available is 400 with the route's text; an internal error is 500 |
| `Bookings.Admit` | main.py:706-752 | reference definition, no contract: the gate of both booking routes, the public check for a guest and the corrected `book_visit` check otherwise; its properties: `Bookings.StrictModeScenario`, `Availability.AdmissionMatchesWindow` |
| `Bookings.BookDecision` | main.py:701-777 | the corrected route of the main.py:726 Finding (admission by `Availability.BookVisitAdmission`): the role error passes through; Ok iff the role passes and availability admits; Ok(None), meaning crowded and nothing stored, iff crowded and not forced; otherwise Ok with the slot capacity |
| `Bookings.GuestOtpIndexAsWritten` | main.py:1456-1460 | as written, the booking takes the first code usable under the raw `guest_email`; not found iff none is usable under it |
| `Bookings.GuestOtpIndex` | main.py:1287-1299 | the corrected lookup takes the first code usable under the stripped address that `send_otp` stored; not found iff none is usable under it |
| `Bookings.IssuedCodeBooks` | main.py:1283-1301 | a code sent to an acceptable address is found by the corrected lookup until it expires |
| `Bookings.PaddedEmailNeverBooks` | main.py:1456-1463 | "a@b.c" followed by a no-break space is stored as "a@b.c", so the raw lookup finds nothing while the corrected one finds the code |
| `Bookings.GuestBookDecision` | main.py:1453-1531 | the corrected route of the main.py:1456-1460 Finding (the code is looked up under the stripped address, by `Bookings.GuestOtpIndex`): no usable code is 400 "Invalid or expired OTP. Please verify your email."; Ok iff a code is usable and the public check admits; Ok carries that code's index and the capacity |
| `Bookings.UpsertException` | main.py:1049-1072 | an existing row: status overwritten, times only where given, Cancelled clears both; other rows unchanged; otherwise exactly one row appended |
| `Bookings.UpsertExceptionTakesEffect` | main.py:1041-1075 | afterwards the date resolves to leave for Cancelled, otherwise to the given times, each falling back to the stored row's time when not given; every other doctor and date resolves as before |
| `Bookings.UpsertKeepsOthers` | main.py:1055-1072 | rows of other (doctor, date) pairs resolve as before |
| `Bookings.UpsertExceptionIdempotent` | main.py:1055-1072 | a second identical upsert changes nothing, except for a newly added Cancelled row that was given times |
| `Bookings.ExceptionOwner` | main.py:1041-1045 | the role gate comes first; Ok iff a Doctor with a profile, giving that profile's doctor id; otherwise 404 "Doctor profile not found" |
| `Bookings.CancelDecision` | main.py:1085-1094 | role error first; then 404 "Visit not found"; then 403 exactly for a Customer not owning the visit; Ok gives the visit's position |
| `Bookings.CustomerCannotCancelGuestVisit` | main.py:1092-1094 | a Customer can never cancel a guest's booking |
| `Bookings.CancelOtpDecision` | main.py:1557-1565 | 404 iff no visit has the id; Ok iff the visit's guest email equals the given one; otherwise 400 |
| `Bookings.GuestCancelDecision` | main.py:1585-1604 | checks in order: 400 iff no usable code; then 404 iff no visit; then 403 on an email mismatch; Ok gives the visit and the code to delete |
| `Bookings.CancelOtpThenCancel` | main.py:1557-1619 | a code stored by `send_cancel_otp` cancels that booking until it expires |
| `Messaging.MarkRead` | main.py:1719-1723 | only `is_read` changes, and it becomes true exactly on counterpart→me messages |
| `Messaging.MarkReadCounts` | main.py:1719-1723 | afterwards nothing from the counterpart to me is unread; every other pair's unread count is unchanged |
| `Messaging.UnreadCount` | main.py:1762-1766 | reference definition, no contract: the number of unread messages from one user to another; its properties: `Messaging.MarkReadCounts`, `Messaging.MarkReadUnreadTo` |
| `Messaging.MarkReadUnreadTo` | main.py:1719-1723 | opening a history takes exactly that counterpart's unread messages off my total |
| `Messaging.NextMessageId` | main.py:216 | a new message id is larger than every id in use |
| `Messaging.MarkReadChronological` | main.py:1719-1723 | marking read keeps the table in sending order |
| `Messaging.History` | main.py:1727-1730 | the history is no longer than the table (its contents: `Messaging.HistoryExactly`; its order: `Messaging.HistorySorted`) |
| `Messaging.HistoryExactly` | main.py:1727-1739 | the history holds exactly the messages between the two users; `is_me` iff I sent it |
| `Messaging.HistoryFromRows` | main.py:1727-1730 | each item carries the timestamp of a row |
| `Messaging.SortedCons` | main.py:1730 | prepending an item no later than the rest keeps the order |
| `Messaging.ChronologicalTail` | main.py:1730 | the tail of a chronological table is chronological, and its head is the earliest |
| `Messaging.HistorySorted` | main.py:1730 | the history is in non-decreasing timestamp order |
| `Messaging.ConversationsSound` | main.py:1744-1778 | each entry is a counterpart with a user row; its name is the display name and its unread count is counterpart→me; it carries the newest message exchanged with that user; no counterpart appears twice |
| `Messaging.ConversationsUpTo` | main.py:1744-1778 | reference definition, no contract: the loop over the messages, newest first, keeping the first per counterpart; its properties: `Messaging.ConversationsSound`, `Messaging.ConversationsComplete`, `Messaging.ConversationsNewestFirst` |
| `Messaging.ConversationsComplete` | main.py:1751-1758 | every counterpart with a user row gets an entry |
| `Messaging.ConversationsNewestFirst` | main.py:1744-1746 | entries run from the most recent exchange to the oldest |
| `Clinic.Formatted` | main.py:1431 | one "HH:MM" string per time, in order |
| `Clinic.FormatHHMMInjective` | main.py:1431 | distinct whole-minute slots print differently |
| `Clinic.WalkSlots` | main.py:1408-1433 | the `while curr <= end` loop yields exactly the formatted slot walk |
| `Clinic.FormattedSnoc` | main.py:1431 | formatting one more time appends its string |
| `Clinic.Store.constructor` | main.py:173-178 | the store holds the given tables, and `Valid()` holds from the start when its visit ids are distinct and its messages chronological |
| `Clinic.Store.UpdateSlotLoad` | main.py:682-698 | only `slot_load` changes, by the counter upsert; the slot's count rises by one |
| `Clinic.Store.SetException` | main.py:1041-1075 | Ok iff the caller owns a doctor profile, and then only the exceptions change, by the upsert; nothing changes on an error |
| `Clinic.Store.SendOtp` | main.py:1283-1317 | 400 with nothing stored when the stripped address is unacceptable; otherwise the stripped address's code is stored and the answer is Ok, since delivery always reports success |
| `Clinic.Store.VerifyOtp` | main.py:1319-1341 | Ok iff a usable code exists, which is then deleted; otherwise 400 "Invalid or expired OTP" with nothing changed |
| `Clinic.Store.CleanupExpiredOtps` | main.py:51-60 | only the codes change, by cleanup |
| `Clinic.Store.BookVisit` | main.py:701-790 | the corrected route of the main.py:726 Finding, through `Bookings.BookDecision`: an error, or a crowded unforced slot, changes nothing; otherwise the user's visit is appended under a fresh id and that slot's load rises; ids stay distinct |
| `Clinic.Store.BookGuestVisit` | main.py:1453-1540 | the corrected route of the main.py:1456-1460 Finding, through `Bookings.GuestBookDecision`: on success the guest visit is appended under a fresh id, the code is consumed and the slot's load rises; any refusal changes nothing |
| `Clinic.Store.CommitGuestVisit` | main.py:1513-1530 | the visit row is appended, the code deleted and the slot's load raised; nothing else changes and visit ids stay distinct |
| `Clinic.Store.CancelVisit` | main.py:1085-1114 | on success exactly the decided visit is deleted, and its id is then absent; otherwise nothing changes |
| `Clinic.Store.SendCancelOtp` | main.py:1557-1583 | the answer is the cancel-code decision; a code for the given address is stored only on success |
| `Clinic.Store.CancelGuestVisit` | main.py:1585-1619 | the visit and the code are deleted together, or nothing changes |
| `Clinic.Store.GetPublicDoctorSlots` | main.py:1358-1435 | the answer is the formatted slot list for the resolved hours, with the doctor's visits that day as occupied times |
| `Clinic.Store.GetMessageHistory` | main.py:1716-1739 | only the messages change, by marking read; the answer is the history; nothing from the counterpart stays unread |
| `Clinic.Store.GetConversations` | main.py:1741-1780 | the loop yields the conversation list of the messages, newest first |
| `Clinic.Store.GetUnreadCount` | main.py:1782-1788 | the count of my unread messages |
| `Clinic.Store.SendMessage` | main.py:1689-1714 | 404 "Recipient not found" with nothing changed for an unknown recipient; otherwise one unread message with a fresh id is appended and returned |
| `TimeOptions.HourOption` | static/app.js:18-36 | one pass of the loop, with every AM/PM adjustment as written, builds the reference option of its hour |
| `TimeOptions.HourValueParses` | static/app.js:19-20 | "HH:00:00" parses to hour HH |
| `TimeOptions.TimeOptionList` | static/app.js:14-41 | 14 options, for the hours 08 to 21 |
| `TimeOptions.GetTimeOptions` | static/app.js:14-41 | the loop with its AM/PM adjustments yields exactly the option list |
| `TimeOptions.SmallNumbers` | static/app.js:36 | the hour figures of the labels |
| `TimeOptions.FirstOption` | static/app.js:14-41 | the first option is "08:00:00", labelled "8 AM - 9 AM" |
| `TimeOptions.NoonOptions` | static/app.js:29-34 | around noon the labels read "11 AM - 12 PM" and "12 PM - 1 PM" |
| `TimeOptions.LastOption` | static/app.js:14-41 | the last option is "21:00:00", labelled "9 PM - 10 PM" |
| `TimeOptions.OptionValuesParse` | static/app.js:18-20 | every value has eight characters and parses to its hour |
| `TimeOptions.CountColonsAppend` | static/app.js:575 | colon counts add up over concatenation |
| `TimeOptions.Normalise` | static/app.js:575 | a value with exactly one ':' gains ":00"; any other is unchanged |
| `TimeOptions.NormaliseIdempotent` | static/app.js:575 | normalising twice is normalising once |
| `TimeOptions.NormalisedSlotParses` | static/app.js:818-819 | a listed "HH:MM" normalises to the string the server parses back to that slot |
| `TimeOptions.NoColonInDigits` | static/app.js:575 | digit strings hold no colon |
| `Calendar.Prefix5` | static/app.js:1066-1067 | `substring(0, 5)` is the prefix of length at most 5 |
| `Calendar.FindByDate` | static/app.js:1057 | `find` by date: the first exception with that date |
| `Calendar.FindByDay` | static/app.js:1076 | `find` by weekday: the first rule for that weekday |
| `Calendar.Status` | static/app.js:1053-1085 | Cancelled shows ("status-off", "OFF"); another exception gives "status-exception"; no exception gives "status-open", with "08:00 - 22:00" without a rule |
| `Calendar.StartDay` | static/app.js:1018-1019 | the number of leading blanks is below 7 |
| `Calendar.RenderCalendar` | static/app.js:988-1096 | the two loops build exactly the month's grid |
| `Calendar.MonthView` | static/app.js:988-1096 | reference definition, no contract: the month grid; its properties: `Calendar.RenderCalendar`, `Calendar.GridShape`, `Calendar.TodayMark`, `Calendar.OneToday`, `Calendar.June2024` |
| `Calendar.RenderDay` | static/app.js:1032-1093 | one pass of the day loop builds that day's reference cell: its date string, today mark and status |
| `Calendar.DayCellsSnoc` | static/app.js:1031-1093 | one more day cell extends the grid by that day |
| `Calendar.GridShape` | static/app.js:1012-1031 | blanks equal the Monday-first weekday of the 1st, followed by exactly one cell per day in order; seven headers from Mon to Sun |
| `Calendar.TodayMark` | static/app.js:1038-1044 | a cell's key is its zero-padded date, marked today iff it equals today's string |
| `Calendar.OneToday` | static/app.js:1044 | at most one cell of a month is marked today |
| `Calendar.StatusPrecedence` | static/app.js:1056-1085 | an exception's window, or its status when it has no start time; otherwise the first weekly rule's "HH:MM - HH:MM"; a day with an exception never shows as open |
| `Calendar.June2024` | static/app.js:988-1031 | June 2024 opens with five blanks and has 35 cells, titled "June 2024" |
| `Session.AuthorizationHeader` | static/app.js:331 | "Bearer " + token, or "Bearer null" without one |
| `Session.ClientSession.constructor` | static/app.js:7-12 | the state is read from storage |
| `Session.ClientSession.Login` | static/app.js:172-179 | state and storage take the token, role and display name and agree |
| `Session.ClientSession.Logout` | static/app.js:187-195 | the three keys leave storage and state, other keys stay, and the page reloads |
| `Session.ClientSession.AuthFetch` | static/app.js:329-350 | a 401 logs out and yields null; any other answer is passed back with the state untouched |
| `GuestWizard.UpdateGuestTimeSlots` | static/app.js:1396-1427 | no fetch iff the doctor or date is missing, then a disabled prompt whose value is its text; an empty list is disabled on the one option valued ""; otherwise each slot t is offered as value t + ":00"; a failed fetch shows an error option valued by its text and keeps `disabled` |
| `GuestWizard.PlaceholderValuesAreNoTime` | static/app.js:1402-1425 | the prompt, the empty answer and both error options leave exactly one option whose value parses to no time |
| `GuestWizard.OfferedOptionsParse` | static/app.js:1417 | every offered value parses back to the listed slot |
| `GuestWizard.Wizard.constructor` | static/app.js:1287 | an empty draft at step 1 with no requests |
| `GuestWizard.Wizard.GoToGuestStep2` | static/app.js:1462-1474 | the draft takes the fields; step 2 opens iff doctor and date are set, whatever the time slot |
| `GuestWizard.Wizard.SendGuestOtp` | static/app.js:1476-1516 | an empty email is refused first, then an empty name, with no request; otherwise the code is requested for the typed email |
| `GuestWizard.Wizard.ConfirmGuestBooking` | static/app.js:1522-1538 | nothing is posted without a code; otherwise the whole draft, code included |
| `GuestWizard.Wizard.SendCancelOtp` | static/app.js:1584-1621 | both fields are required; they are kept, and step 2 opens on success |
| `GuestWizard.Wizard.ConfirmCancel` | static/app.js:1637-1673 | nothing is posted without a code; otherwise the kept booking with it |
| `GuestWizard.Countdown` | static/app.js:1677-1695 | after k < 15 ticks the button is disabled, showing "Resend OTP (15-k s)"; from the 15th on it is enabled, showing "Resend OTP", and stopped |
| `GuestWizard.ResendTimer.constructor` | static/app.js:1681-1683 | the countdown starts at 15, disabled |
| `GuestWizard.ResendTimer.Tick` | static/app.js:1685-1694 | one tick of the interval |
| `Chat.JsTrimStart` | static/app.js:2035 | leading whitespace removed |
| `Chat.JsTrimEnd` | static/app.js:2035 | trailing whitespace removed |
| `Chat.JsTrim` | static/app.js:2035 | `trim()` is empty iff the text is all whitespace; otherwise neither end is whitespace |
| `Chat.ItemOf` | static/app.js:1975-1987 | an entry is active iff it is the open chat; its name falls back to "User id" and its preview to "Start chatting..."; a badge iff unread > 0 |
| `Chat.RenderChatList` | static/app.js:1972-1989 | a placeholder iff the list is missing or empty; otherwise one entry per conversation, in order |
| `Chat.SidebarOfServerList` | static/app.js:1972-1989 | from the server's list, at most one entry is active, and an entry has a badge iff that counterpart has unread messages to me |
| `Chat.UpdateBadge` | static/app.js:1895-1901 | shown iff the count is positive; the text reads back as the count |
| `Chat.BadgeClearsAfterReading` | static/app.js:1895-1901 | reading the only conversation with unread messages hides the badge at the next poll |
| `Chat.PollsUnread` | static/app.js:1880-1882 | every role except Customer polls |
| `Chat.ChatState.constructor` | static/app.js:1905 | no chat open, nothing sent |
| `Chat.ChatState.LoadMessagesView` | static/app.js:1908-1922 | the conversation list is fetched |
| `Chat.ChatState.LoadChatHistory` | static/app.js:1991-2011 | the chat opens, its history (none for `NaN`) and then the sidebar are fetched |
| `Chat.ChatState.RefreshChatMessages` | static/app.js:2013-2031 | the history is fetched iff the id is the open chat's, so never for `NaN` |
| `Chat.ChatState.SendChatMessage` | static/app.js:2033-2049 | text that trims to nothing is dropped, box untouched; otherwise the box is cleared and the requests are exactly: the trimmed text sent, the history iff the id is the open chat's, the sidebar, and the open chat's history iff its id is truthy |
| `Chat.ChatState.PollChatUpdates` | static/app.js:2055-2083 | the sidebar is always fetched; the history only when the open chat's id is truthy |
| `Chat.ChatState.StartNewChatAction` | static/app.js:2129-2157 | a typed id overrides the picked one; without recipient or message nothing is sent and a warning shows; otherwise the message goes to the id as `parseInt` reads it; refused, nothing more is sent and "Failed to send" shows; accepted, the chat opens on that id and the requests are exactly: the message, the sidebar, that id's history unless `NaN`, and the sidebar again |
| `Chat.DigitPrefix` | static/app.js:2139 | the longest run of digits at the head |
| `Chat.SignedPrefix` | static/app.js:2139 | reference definition, no contract: one sign, then the digits at the head; its properties: `Chat.SignedPrefixUnsigned`, `Chat.SignedPrefixMinus` |
| `Chat.SignedPrefixUnsigned` | static/app.js:2139 | unsigned, the number is the value of the leading digits |
| `Chat.SignedPrefixMinus` | static/app.js:2139 | a minus sign negates the number after it |
| `Chat.JsParseInt` | static/app.js:2139 | reference definition, no contract: `parseInt` with no radix; its properties: `Chat.JsParseIntUnpadded`, `Chat.JsParseIntOfDecimal`, `Chat.JsParseIntNaN` |
| `Chat.JsParseIntUnpadded` | static/app.js:2139 | without leading whitespace, the number read is the signed number at the head |
| `Chat.JsParseIntOfDecimal` | static/app.js:2139 | a decimal id reads back as itself, whatever non-digit text follows, so "12.5" gives 12 |
| `Chat.JsParseIntNaN` | static/app.js:2139 | the empty string, and text starting with no whitespace, sign or digit, give `NaN` |

## Left out

- E-mail and voice delivery (SMTP, Twilio, the confirmation, cancellation and reminder mails): foreign I/O, dropped. `_send_otp_email` (main.py:1185-1238) returns True on every path, failures included, so `SendOtp` has no 502 branch: the one at main.py:1306-1307 is unreachable.
- JWT tokens and bcrypt hashing: foreign libraries. A request's user is given as a `User` value, and `verify_otp`'s token is not modelled.
- The SQLAlchemy session: the tables are sequences in `Clinic.Store`. `.first()` is the first match in table order; a new row's key is one more than the largest in use.
- The random source of `generate_otp`: the code is a parameter, required to be six digits.
- `strptime` of request strings, in the routes that parse them: `book_visit` (main.py:703-704), `POST /visits/public` (main.py:1466-1467, after a usable code is found and before it is deleted), `set_exception` (main.py:1047-1070) and the public slot route (main.py:1361-1364). The model takes parsed dates and times. A malformed string raises 500 in the first three and 400 "Invalid date format YYYY-MM-DD" in the last; neither path is modelled. The cancellation routes take an integer `visit_id` and parse no date or time.
- The gender, visit type and guest phone columns: they are copied into a visit and never decide anything.
- The background reminder and cleanup loops and every `setInterval`: concurrency. Cleanup, one countdown tick and one poll are each modelled as a single call.
- Floating-point mean and stdev: the crowd threshold is modelled exactly over the reals, with the square root squared out. Rounding near the threshold is not captured.
- `TimeDate.ParseHMS`: only the zero-padded "HH:MM:SS" form is parsed. `strptime` also accepts one-digit fields, such as "9:5:0" for 09:05:00; the model rejects those. The client only sends padded strings, and the lemmas use `ParseHMS` only to show that padded strings parse.
- `max_capacity` of a slot is stored but never enforced by the source, and the model keeps it unenforced.
- The older `POST /guest-visits` handler (main.py:804-899) and `add_doctor_exception` (main.py:606-620): superseded or duplicate routes. Listing, schedule, dashboard and admin routes are not part of this model.
- `Clinic.Store.SendMessage`: requires that the clock does not run backwards, so timestamp order is table order. `order_by(timestamp)` ties are taken in table order, and `timestamp.desc()` ties newest row first.
- `Clinic.Store.GetConversations`: the `time_str` text of an entry is given as its timestamp.
- The DOM, button states and HTML templating of the client: only the state the handlers change, the toasts they show and the requests they send are modelled. In `Chat.ChatState` the open chat is `None` for both `null` and `NaN`: both are falsy and equal no id, so the handlers treat them alike.
- Locale formatting of message times (`formatSmartTime`, `formatLocalTime`) and the UTC+4 helpers at static/app.js:47-117, which later declarations shadow: foreign calls and dead code.
- `Chat.JsParseInt`: the hexadecimal "0x" prefix that `parseInt` also reads is not modelled. The ids come from a number input and from option values, which never carry it. `parseInt` of the ids in the guest cancel routes (static/app.js:1602, 1647) is not modelled; those ids stay strings.
- `Calendar.RenderCalendar`: years 0-99 are left out. JavaScript's `new Date(y, m, d)` maps them to 1900-1999, so the model requires year >= 1 and is faithful only from year 100 on.
- `Calendar.RenderCalendar`: today's string is a parameter; the client takes it from `toISOString`, the UTC date.
- The late-response render of `refreshChatMessages`: its guard (static/app.js:2014) is checked once, before the fetch, and the model keeps only that guard.
- `guestBookingData` is never reset between wizard runs, and the model keeps that: the draft persists.
- The unreachable block at static/app.js:631-655, and the `selectedIndex` read on a string at static/app.js:2149 that leaves the chat name "New Chat": dead or display-only code.
- `GuestWizard.ResendTimer.Tick`: a second timer started on resend, while one is still running, is not modelled.
- `TimeOptions.HourOption`: requires the loop's range 8 <= i < 22, so the midnight adjustment for i == 23, which the loop never reaches, is not stated.

## Findings

| source | as written | input that shows it | evidently intended | confidence | as-written member | corrected member |
|---|---|---|---|---|---|---|
| main.py:726 | inside an Added/Updated exception window, `book_visit` reads `visit.doctor.id`, which the request model lacks, and raises (500) | an Added exception 09:00-17:00 and a booking at 10:00 | look up the weekday's rule by `visit.doctor_id` and admit the booking | not executed | `Availability.BookVisitAdmissionAsWritten`, shown by `Availability.BookVisitExceptionWindowFails` | `Availability.BookVisitAdmission`, with `Availability.AdmissionMatchesWindow` |
| main.py:1456-1460 | `send_otp` stores the stripped address (main.py:1287, 1299), but `/visits/public` looks the code up by the raw `guest_email` (main.py:1457). Under the HTML standard's value sanitization for `type=email` the browser trims only ASCII whitespace from the e-mail field (static/app.js:1372), and the client sends what remains (static/app.js:1479, 1491). Any other caller of the route may send padding of any kind | the address "a@b.c" followed by U+00A0, a no-break space that `str.strip()` removes and the browser keeps | look the code up by the stripped address, so that a code sent is a code that books | not executed | `Bookings.GuestOtpIndexAsWritten`, shown by `Bookings.PaddedEmailNeverBooks` | `Bookings.GuestOtpIndex`, with `Bookings.IssuedCodeBooks` |
