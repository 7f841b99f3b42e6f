# Appointment scheduling engine, modelled in Dafny

This project models `AppointmentService`, the scheduling core of a small
appointment-booking backend. It covers:

- the slot calculus: `normalizeSlot`, `isValidSlot`, `isSameDay`;
- the availability check `checkAvailability`;
- the bounded forward search `findNextAvailableSlot`;
- booking, cancellation and the per-user listing over the appointments table.

Time is an integer count of milliseconds since the Unix epoch. UTC fields are
read the way an ECMAScript `Date` reads them: the day is `t / 86400000`, the
hour `(t / 3600000) % 24`, the minute `(t / 60000) % 60`, with floor division.
The clock is the parameter `now`. The server's time zone is the parameter
`tzOffset`, in milliseconds east of UTC.

Files and modules:

- `slots.dfy`, module `Slots`: the constants, the `Date` setters the service
  uses, normalization, slot validity, the local-date comparison, and the
  candidates of the forward search with their ordering lemmas.
- `table.dfy`, module `Table`: the appointment record and each SQL statement
  of the service as a function on the table.
  - The statements are: occupancy of a slot, lookup by id, cancel by id, and
    filter by user with an ordering by date.
  - The module also holds the no-double-booking predicate and what appending
    or cancelling does to it.
- `service.dfy`, module `Service`: the class `AppointmentService`.
  - It holds the table (`appointments`, in insertion order) and the next row id.
  - The search is a method with the source's three nested loops.
  - Booking and cancellation are methods that change the table in place.
  - The check and the listing read the table and change nothing.
- `scenarios.dfy`, module `Scenarios`: a few runs of the service written out
  on the calendar of 2024-01-01 10:00 UTC: a same-day refusal, a double
  booking, the cancellation window, and a full first day.

Behaviour of the code that the model keeps as written, though it is easy to
expect otherwise:

- `bookAppointment` validates nothing and checks no conflict. The table can
  hold two active appointments at one slot: `Scenarios.SameDayAndDoubleBooking`
  builds one. "No double booking" holds through a booking exactly when the slot
  was free (`Table.AppendActiveKeepsNoDoubleBooking`). Nothing in the code
  raises a slot-conflict error.
- `findNextAvailableSlot` ignores its argument and always starts at tomorrow
  09:00 UTC. So when the requested slot is taken, the suggestion can be
  earlier than the requested slot. That fallback returns `{suggested_slot}`
  with no `type` field (`Reply.Suggestion`).
- `isSameDay` compares local dates (`toDateString`), not UTC dates.
  - For a server between UTC-9 and UTC, a suggestion passes every check when
    it is asked for again at the same instant (`Service.SuggestionPassesChecks`).
  - For any server ahead of UTC (by less than fifteen hours) there is an
    instant where tomorrow 09:00 UTC is still the local today
    (`Slots.CandidateSameDayAheadOfUtc`). Asking for that suggestion is then
    refused as same-day.
- Cancellation does not look at the status. An already cancelled appointment
  is cancelled again and gets a new `updated_at` (`Scenarios.CancellationWindow`).

## Model

| member | source | states |
|---|---|---|
| `Slots.Normalize` | src/services/appointment.service.js:10-14 | the result lies on the whole minute at or before the instant, less than a minute before it, with the same UTC day, hour and minute |
| `Slots.NormalizeTruncates` | src/services/appointment.service.js:10-14 | normalizing subtracts exactly the seconds and milliseconds |
| `Slots.NormalizeIdempotent` | src/services/appointment.service.js:10-14 | normalizing twice gives the same slot as normalizing once |
| `Slots.NormalizeFixesWholeMinutes` | src/services/appointment.service.js:10-14 | an instant is left unchanged by normalization exactly when it has no seconds or milliseconds |
| `Slots.IsValidSlot` | src/services/appointment.service.js:16-24 | a slot is valid exactly when its UTC hour is in 9..16 and its UTC minute is one of the scan's offsets 0 and 30; seconds are not looked at |
| `Slots.ValidSlotWindow` | src/services/appointment.service.js:16-24 | a slot is valid exactly when its UTC time of day is in [09:00, 17:00) and within the first minute of a half hour |
| `Slots.ValidSlotEdges` | src/services/appointment.service.js:16-24 | on every day 09:00 and 16:30 are valid, 08:59, 09:15 and 17:00 are not, and seconds do not matter |
| `Slots.LocalDay` | src/services/appointment.service.js:26-29 | the local date of an instant is the day whose 24 hours contain the instant shifted by the zone offset |
| `Slots.IsSameDay` | src/services/appointment.service.js:26-29 | two instants on the same local date are less than a day apart |
| `Slots.SameDayIsUtcDayIff` | src/services/appointment.service.js:26-29 | the same-day test equals UTC-day equality on all instants exactly when the offset is a whole number of days; otherwise two instants of one UTC day fall on two local dates |
| `Slots.SearchStart` | src/services/appointment.service.js:79-81 | the scan starts at 09:00:00.000 UTC of the day after now, strictly later than now |
| `Slots.CandidateAtFields` | src/services/appointment.service.js:78-93 | the slot built for (day, hour, minute) has UTC day = tomorrow + day, that hour, that minute, zero seconds |
| `Slots.CandidateAt` | src/services/appointment.service.js:79-93 | the slot built from `setUTCDate`/`setUTCHours` is tomorrow's midnight plus the given whole days, hours and minutes |
| `Slots.CandidateAtIsCandidate` | src/services/appointment.service.js:85-93 | every (day < 30, hour in 9..16, minute in {0, 30}) the scan builds is a candidate |
| `Slots.CandidateIsPosition` | src/services/appointment.service.js:85-93 | every candidate is built by some scan position, so the candidates are exactly the 30 x 16 scanned slots |
| `Slots.NoCandidateInsideHalfHour` | src/services/appointment.service.js:89-93 | no candidate lies strictly between a scan position and the next half hour |
| `Slots.NoCandidateOvernight` | src/services/appointment.service.js:87-92 | no candidate lies between 17:00 of one search day and 09:00 of the next |
| `Slots.CandidateWithinScan` | src/services/appointment.service.js:78-85 | every candidate lies between tomorrow 09:00 UTC and 09:00 of the day after the 30-day horizon |
| `Slots.CandidateAfterNow` | src/services/appointment.service.js:78-81 | every candidate is strictly later than now |
| `Slots.CandidateNotSameDay` | src/services/appointment.service.js:26-29 | with an offset between -9 h and 0, no candidate shares the local date of now |
| `Slots.CandidateSameDayAheadOfUtc` | src/services/appointment.service.js:26-29 | with any offset in (0, 15 h), the first candidate at 23:59:59.999 UTC shares the local date of now |
| `Table.Occupied` | src/services/appointment.service.js:56-61 | a slot is taken exactly when some active row of the table has that date |
| `Table.AppendActiveKeepsNoDoubleBooking` | src/services/appointment.service.js:117-130 | appending an active row keeps "no two active rows share a slot" if and only if the slot was free |
| `Table.Find` | src/services/appointment.service.js:137-146 | the lookup fails exactly when no row has the id, and otherwise returns the first row with that id |
| `Table.FindUnique` | src/services/appointment.service.js:137-146 | with distinct ids, the lookup returns the one row carrying the id |
| `Table.MarkCancelled` | src/services/appointment.service.js:157-159 | the updated row is cancelled and stamped, with id, user, date, chat flag and creation time as they were |
| `Table.CancelById` | src/services/appointment.service.js:157-164 | the update keeps the table's length, marks every row with the id cancelled with the new stamp, and leaves every other row as it was |
| `Table.CancelByIdOnlyTarget` | src/services/appointment.service.js:157-166 | with distinct ids, the update replaces exactly the row the lookup found |
| `Table.CancelByIdOccupied` | src/services/appointment.service.js:157-164 | after the update a slot is taken exactly when an active row of another id holds it |
| `Table.CancelByIdKeepsInvariants` | src/services/appointment.service.js:157-164 | cancelling never creates a double booking and keeps ids distinct |
| `Table.OwnedBy` | src/services/appointment.service.js:170-174 | the filter keeps each row of the user, with its multiplicity, and no other row |
| `Table.InsertByDate` | src/services/appointment.service.js:170-174 | inserting into a date-ordered sequence keeps it ordered and adds exactly that row |
| `Table.SortByDate` | src/services/appointment.service.js:170-174 | the ordering is by ascending date and is a permutation of its input |
| `Service.IsWindowExpired` | src/services/appointment.service.js:151-155 | the window has expired exactly when more than 2 h (7 200 000 ms) have passed since creation, so exactly 2 h is still allowed |
| `Service.EarliestFreeUnique` | src/services/appointment.service.js:74-111 | two answers of the search over the same table at the same instant are equal |
| `Service.NothingBeforeStart` | src/services/appointment.service.js:78-85 | before the scan starts, no candidate has been skipped |
| `Service.TakenPastMinute` | src/services/appointment.service.js:89-106 | after a taken slot, every candidate before the next minute offset is taken |
| `Service.TakenPastHour` | src/services/appointment.service.js:87-89 | after both offsets of an hour, every candidate before the next hour is taken |
| `Service.TakenPastNight` | src/services/appointment.service.js:85-87 | after 16:30 of a day, every candidate before 09:00 of the next day is taken |
| `Service.TakenPastHorizon` | src/services/appointment.service.js:85-111 | when the scan ends without an answer, every candidate is taken |
| `Service.SuggestionPassesChecks` | src/services/appointment.service.js:45-54 | with an offset between -9 h and 0, a search answer is already normalized, not past, not same-day, valid and free |
| `Service.FullFirstDayGivesNextMorning` | src/services/appointment.service.js:85-106 | when the whole first search day is taken and the next 09:00 is free, the search answers that 09:00 |
| `Service.AppointmentService.FindNextAvailableSlot` | src/services/appointment.service.js:74-112 | the answer is a candidate and free, and every earlier candidate is taken; otherwise the error "No available slots found within 30 days" and every candidate is taken; the table is not changed |
| `Service.AppointmentService.CheckAvailability` | src/services/appointment.service.js:34-72 | without a slot, the search answer as next_available; with a slot, past, then same-day, then invalid, then the normalized slot itself when free, else the search answer; every slot returned is valid, not before now, whole-minute and free |
| `Service.AppointmentService.BookAppointment` | src/services/appointment.service.js:117-130 | appends exactly one confirmed row with the user, the normalized slot and the chat flag, with no check; every earlier row is unchanged |
| `Service.AppointmentService.CancelAppointment` | src/services/appointment.service.js:135-167 | not found, then unauthorized, then window expired, each leaving the table as it was; otherwise only that row becomes cancelled with a fresh update stamp, whatever its status was, and is returned |
| `Service.AppointmentService.GetUserAppointments` | src/services/appointment.service.js:169-177 | the user's rows of any status, each with its multiplicity and nothing else, in ascending date order; reads the table only |
| `Scenarios.SameDayAndDoubleBooking` | src/services/appointment.service.js:117-130 | a same-day slot is refused by the check, yet two bookings at 2024-01-02 09:00 both give active rows |
| `Scenarios.CancellationWindow` | src/services/appointment.service.js:135-167 | cancelling at +1 h succeeds, cancelling again at +1.5 h succeeds and restamps, another user at +3 h gets Unauthorized, the owner at +3 h gets the window error |
| `Scenarios.FirstDayTaken` | src/services/appointment.service.js:85-106 | sixteen active rows on the half hours from tomorrow 09:00 take the whole first search day and leave the next 09:00 free |
| `Scenarios.FullDayMovesToNextMorning` | src/services/appointment.service.js:74-109 | with all of 2024-01-02 taken, the search answers 2024-01-03 09:00 UTC |

## Left out

- Parsing with `new Date(slot)` and formatting with `toISOString()` are left out. Slots are integer milliseconds in and out, so the "Invalid Date" path of an unparsable string is not modelled.
- The falsy test `if (!slot)` is modelled as an absent optional slot. Other falsy values, such as an empty string, are not modelled.
- Every `new Date()` inside one call reads the clock at one instant `now`. The source reads the clock separately in the past check, in `isSameDay` and in the search. The `CURRENT_TIMESTAMP` that the cancelling UPDATE writes to `updated_at` is also that `now`.
- Service.AppointmentService.BookAppointment: the INSERT sets neither `created_at` nor `updated_at`; their column defaults are assumed to be the insert time, so both are `now`. The schema that would define those defaults is not part of this model.
- `isSameDay` uses a fixed time-zone offset. Daylight-saving changes of the server's zone are not modelled.
- The `Date` range limit of plus or minus 8.64e15 ms is not modelled. Integers are unbounded.
- The cancellation window uses real division. This agrees with the double division of the source for every whole-millisecond difference.
- The database is left out: the connection pool, asynchronous calls, storage errors, and concurrent callers with their check-then-insert race. Any uniqueness constraint of the schema is left out too, because the schema is not part of this model. The table is a sequence changed one call at a time.
- Row ids are integers handed out by a counter that starts at 1; the schema's serial column is assumed. `Valid()` (distinct ids, all below the counter) stands for the primary key. The string/number difference of ids taken from request parameters is left out.
- Service.AppointmentService.GetUserAppointments: rows of equal date come out in table order. SQL leaves their order unspecified, so the contract states only the ordering by date and the set of rows with multiplicities. Any order the database picks satisfies that contract.
- The controllers, routes, middleware, authentication, chat and language-model services are not part of this model.
