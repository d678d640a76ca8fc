# Restaurant reservations: seating, booking hours and reservation queries

This project is a Dafny model of the rules at the core of a restaurant
reservation application, with proofs about them:

- **Seating** (`tables.controller.js`). The `assignReservationId` middleware
  chain seats a reservation at a table. The `deleteReservationId` chain
  finishes the table and frees it. Each chain runs its guards in order, and
  the first guard that fails answers with an HTTP status and a message. A
  chain whose guards all pass ends in one atomic update: it writes the
  table's `reservation_id` and the reservation's status together. The
  `create` chain's validators are modelled too.
- **Booking hours** (the `validate` function of the create screen
  `ReservationForm.js` and of the edit screen `ReservationEdit.js`). Three
  checks push their errors onto one list: a reservation must be in the
  future, the restaurant is closed on Tuesdays, and bookings are taken from
  10:30 to 21:30.
- **Reservation queries** (`reservations.service.js`): `list` by date,
  `search` by phone number, `read`, `create`, `updateStatus` and
  `updateReservation`.
- **`hasMinLength`** (`hasMinLength.js`): the validator factory and the
  validator it returns.

The model follows the source's own form:

- `TablesController.SeatingStore` is a class holding the two maps. Its
  reservations map is the keyed view (`ReservationsService.ById`) of the rows
  that `ReservationsService.ReservationTable` holds. Its
  `Seat` and `Finish` methods run the guards in chain order. They are proved
  to return `SeatOutcome` / `FinishOutcome` and to leave the store as
  `AfterSeat` / `AfterFinish` say.
- The two `validate` functions are methods that append to a `seq<Msg>`. Each
  is proved equal to the single specification function
  `BookingPolicy.Violations`, so the two screens agree.
- `list`, `search` and `read` are functions over the sequence of rows.
  `ReservationsService.ReservationTable` holds the rows; its methods are
  `create`, `updateStatus` and `updateReservation`.
- `hasMinLength` is pure: a `Validator` value, its `Name`, and `Apply`.

Dates are `(year, month, day)` and times are `(hour, minute)`. The weekday
comes from a days-from-civil count. The clock reading `now` is a parameter,
in milliseconds on the local wall clock. Request bodies are JSON values
(`Js.Value`), with JavaScript truthiness, `length`, `Object.keys` and the number conversion of a comparison.

Supporting modules:

- `Wrappers`: `Option`, `Result` and `HttpError`.
- `Js`: JSON values, truthiness, `length`, `ToNumber`, `Number.isInteger`, `Object.keys` and property lookup.
- `Text`: printing integers in templates, ASCII upper case, `join`, character
  filtering and substring search.
- `Calendar`: dates, times, leap years, the day count, weekdays and orderings.

## Model

| member | source | states |
|---|---|---|
| TablesController.SeatOutcome | back-end/src/tables/tables.controller.js:8-87 | The seating chain's answer. On success the data and a truthy reservation id are present, the reservation and table exist, and the result is the table with that id written in. Every error is a 400 or a 404. |
| TablesController.AfterSeat | back-end/src/tables/tables.controller.js:199-204 | The store after seating. Any error leaves the store unchanged. The set of table ids and the set of reservation ids never change. |
| TablesController.FinishOutcome | back-end/src/tables/tables.controller.js:104-127 | The finishing chain's answer. Success needs an existing, occupied table and returns it with `reservation_id` cleared. Every error is a 400 or a 404. |
| TablesController.AfterFinish | back-end/src/tables/tables.controller.js:115-127 | The store after finishing. Any error leaves it unchanged. The sets of ids never change. |
| TablesController.ReadTable | back-end/src/tables/tables.controller.js:52-63 | A table is found exactly when its id is stored, and is returned as stored. Otherwise the answer is 404 "Table with id: … was not found". The read-after-write lemmas tie it to the two chains. |
| TablesController.SeatingStore.Seat | back-end/src/tables/tables.controller.js:8-102 | Runs hasData, hasReservationId, reservationExists, reservationIsBooked, tableExists, tableIsFree, tableIsBigEnough and occupyTable in order, then the atomic update. The result is `SeatOutcome` and the new state is `AfterSeat`; row keys stay consistent. |
| TablesController.SeatingStore.Finish | back-end/src/tables/tables.controller.js:104-127 | Runs tableExists, tableIsOccupied and deOccupyTable, then the update. The result is `FinishOutcome` and the new state is `AfterFinish`. |
| TablesController.SeatSucceedsIff | back-end/src/tables/tables.controller.js:8-87 | Seating succeeds iff all of these hold: data is present; the reservation id is truthy; the reservation exists and is not "seated"; the table exists and is free; capacity ≥ people. |
| TablesController.SeatChangesOnlyThePair | back-end/src/tables/tables.controller.js:89-102 | After a successful seat, that table holds the id and that reservation is "seated". Every other table and reservation is unchanged. |
| TablesController.MissingReservationComesFirst | back-end/src/tables/tables.controller.js:217-227 | A missing reservation answers 404 "Reservation with id: … was not found", whatever the tables hold. |
| TablesController.ReservationExistsReadsTheTable | back-end/src/tables/tables.controller.js:28-39 | Over the map view of a reservations table, a reservation that `read` misses gives the 404, and one it finds is the row the later guards see. |
| TablesController.OccupiedComesBeforeCapacity | back-end/src/tables/tables.controller.js:217-227 | A table that is both occupied and too small reports 400 "Table id is occupied: …", not the capacity error. |
| TablesController.CapacityBoundary | back-end/src/tables/tables.controller.js:65-76 | Once the earlier guards pass, capacity ≥ people succeeds. Capacity < people answers 400 "Too many guests ( n ) …". |
| TablesController.FullTableIsAccepted | back-end/src/tables/tables.controller.js:65-76 | A party exactly the table's capacity is seated. |
| TablesController.OnlySeatedBlocks | back-end/src/tables/tables.controller.js:41-50 | The "already seated" error arises iff the status is "seated". Any other status gives the same answer as "booked". |
| TablesController.FinishMissingTable | back-end/src/tables/tables.controller.js:52-63 | Finishing an unknown table answers 404 and changes nothing. |
| TablesController.FinishFreeTable | back-end/src/tables/tables.controller.js:104-113 | Finishing a free table answers 400 "Table with id: … is not occupied" and changes nothing. |
| TablesController.FinishReleasesTheTable | back-end/src/tables/tables.controller.js:115-127 | Finishing an occupied table clears its id and sets the bound reservation (when it exists) to "finished". Every other row is unchanged. |
| TablesController.SeatThenFinish | back-end/src/tables/tables.controller.js:89-127 | A seat followed by a finish of the same table succeeds. It leaves the table with a null id and the reservation "finished". Nothing else changes. |
| TablesController.SeatThenFinishRestoresTable | back-end/src/tables/tables.controller.js:115-127 | A table that was null before the seat is restored exactly by the finish. |
| TablesController.ReadAfterSeat | back-end/src/tables/tables.controller.js:216-227 | After a successful seat, reading that table returns what the seat answered. Every other table reads as before, and after a refusal every table does. |
| TablesController.ReadAfterFinish | back-end/src/tables/tables.controller.js:216-233 | After a successful finish, reading that table returns what the finish answered. Every other table reads as before, and after a refusal every table does. |
| TablesController.FinishChecksLikeRead | back-end/src/tables/tables.controller.js:52-63 | Finishing an unknown table gives the same 404 as reading it. A stored table can be finished iff its `reservation_id` is truthy. |
| TablesController.InvalidFields | back-end/src/tables/tables.controller.js:133-135 | A key is listed iff it is in the body and outside {table_name, capacity, reservation_id}. |
| TablesController.InvalidFieldsAppend | back-end/src/tables/tables.controller.js:133-135 | The filter keeps the body's key order. |
| TablesController.OnlyValidProperties | back-end/src/tables/tables.controller.js:131-144 | It passes iff `data` (default `{}`) is not null and every key `Object.keys` gives is a valid property. `data: null` throws. Every other refusal is a 400. |
| TablesController.IndexIsNotAProperty | back-end/src/tables/tables.controller.js:129-135 | No index key "0", "1", … is a valid property. |
| TablesController.IndicesAreInvalid | back-end/src/tables/tables.controller.js:133-135 | A string's or an array's index keys are all offenders, in index order. |
| TablesController.CapacityIsValid | back-end/src/tables/tables.controller.js:152-154 | A valid capacity is a number whose value is an integer ≥ 1. An integral number is valid iff it is ≥ 1. |
| TablesController.CapacityExamples | back-end/src/tables/tables.controller.js:152-154 | `"4"`, 2.5, 0 and -3 are refused, because `Number.isInteger` converts nothing. 1 is accepted. |
| TablesController.TableNameIsValid | back-end/src/tables/tables.controller.js:148-150 | A string or an array is valid iff its length is ≥ 2. Booleans and numbers are never valid. Null never reaches it: `ValidValues` requires a non-null name, since `null.length` throws in the source. |
| TablesController.ObjectNameRule | back-end/src/tables/tables.controller.js:148-150 | An object name with an own numeric `length` n is valid iff n > 1. |
| TablesController.ValidValues | back-end/src/tables/tables.controller.js:156-172 | It passes iff capacity is an integer ≥ 1 and the name's `length` (own member for an object) is > 1. Its only errors are the capacity message and the name message. |
| TablesController.FirstMissing | back-end/src/tables/tables.controller.js:146 | None iff every required property is present and truthy. A reported property is required and missing or falsy. |
| TablesController.CreateCheck | back-end/src/tables/tables.controller.js:210-215 | Only an object body is accepted. Every refusal that carries an HTTP error is a 400. |
| TablesController.CreateAcceptsIff | back-end/src/tables/tables.controller.js:210-215 | The create chain accepts `data` iff it is an object with no unknown key, a truthy name whose `length` is above 1, and an integer capacity ≥ 1. An accepted body is passed on unchanged. |
| TablesController.UnknownKeysReportedFirst | back-end/src/tables/tables.controller.js:137-142 | An unknown key is reported first, as "Invalid field(s): " with the offenders joined by ", ". |
| TablesController.CapacityCheckedBeforeName | back-end/src/tables/tables.controller.js:159-170 | A bad capacity is reported even when the name is also bad. |
| TablesController.NullDataThrows | back-end/src/tables/tables.controller.js:132-133 | `data: null` makes `Object.keys` throw: only the default for absent `data` applies. |
| TablesController.IndexedDataRefused | back-end/src/tables/tables.controller.js:131-142 | A non-empty string or array as `data` is refused with its index keys listed. |
| TablesController.TwoLetterStringRefused | back-end/src/tables/tables.controller.js:131-142 | `data: "ab"` is answered 400 "Invalid field(s): 0, 1". |
| TablesController.KeylessDataLacksName | back-end/src/tables/tables.controller.js:131-146 | A number, a boolean, `""` or `[]` has no keys, passes the first check, and lacks `table_name`. |
| TablesController.ObjectNameAccepted | back-end/src/tables/tables.controller.js:148-149 | A body whose `table_name` is an object with a numeric own `length` above 1 is accepted. |
| ReservationForm.IsFutureDate | front-end/src/reservations/ReservationForm.js:38-45 | It appends "in the future" exactly when the slot is strictly before now. |
| ReservationForm.IsTuesday | front-end/src/reservations/ReservationForm.js:47-52 | It appends the Tuesday error exactly when the UTC weekday is 2. |
| ReservationForm.IsOpenHours | front-end/src/reservations/ReservationForm.js:54-86 | The else-if ladder appends exactly the opening-hours violation of the time. |
| ReservationForm.Validate | front-end/src/reservations/ReservationForm.js:35-97 | The errors are `Violations(date, time, now)` and the result is true iff there are none. |
| ReservationEdit.IsFutureDate | front-end/src/reservations/ReservationEdit.js:48-55 | The same strict past check as the create screen. |
| ReservationEdit.IsTuesday | front-end/src/reservations/ReservationEdit.js:57-62 | The same UTC-weekday-2 check as the create screen. |
| ReservationEdit.IsOpenHours | front-end/src/reservations/ReservationEdit.js:64-91 | The same three messages under the same conditions as the create screen. |
| ReservationEdit.Validate | front-end/src/reservations/ReservationEdit.js:45-102 | The errors are `Violations(date, time, now)` and the result is false iff one exists. |
| ReservationEdit.AgreesWithCreateForm | front-end/src/reservations/ReservationEdit.js:45-102 | For every date, time and now, both screens give the same error list and the same verdict. |
| BookingPolicy.Violations | front-end/src/reservations/ReservationForm.js:35-97 | At most three messages. There are none iff the slot is not in the past, not on a Tuesday and between 10:30 and 21:30. |
| BookingPolicy.HoursViolation | front-end/src/reservations/ReservationForm.js:54-86 | At most one opening-hours message, and none iff the time is from 10:30 to 21:30. |
| BookingPolicy.BeforeOpeningExactly | front-end/src/reservations/ReservationForm.js:60-66 | "only open after 10:30am" appears iff the hour < 10, or the hour is 10 and the minute < 30. |
| BookingPolicy.ClosingBufferExactly | front-end/src/reservations/ReservationForm.js:68-77 | The one-hour-before-closing message appears iff the time is 21:31–21:59. |
| BookingPolicy.AfterClosingExactly | front-end/src/reservations/ReservationForm.js:79-85 | "closes at 10:30pm" appears iff the hour ≥ 22; the 22:30 disjunct adds nothing. |
| BookingPolicy.OpenWindow | front-end/src/reservations/ReservationForm.js:60-85 | There is no opening-hours message iff the time is from 10:30 to 21:30 inclusive. |
| BookingPolicy.AtMostOneHoursMessage | front-end/src/reservations/ReservationForm.js:60-85 | At most one opening-hours message, and at most three messages. |
| BookingPolicy.ChecksInOrder | front-end/src/reservations/ReservationForm.js:88-90 | Messages come in check order (future, Tuesday, hours), each at most once. |
| BookingPolicy.TuesdayAlwaysRefused | front-end/src/reservations/ReservationForm.js:47-52 | The Tuesday error appears iff the weekday is 2, whatever the time. |
| BookingPolicy.FutureCheckIsStrict | front-end/src/reservations/ReservationForm.js:38-45 | The past error appears iff the slot is before now, so a slot exactly at now passes. |
| BookingPolicy.TuesdayEveningExample | front-end/src/reservations/ReservationForm.js:47-52 | 2024-01-02 at 18:00, not in the past, gives only the Tuesday error. |
| BookingPolicy.Wednesday20240103 | front-end/src/reservations/ReservationForm.js:47-52 | 2024-01-03 is day 19725 of the count and not a Tuesday. |
| BookingPolicy.MidnightOf20240103 | front-end/src/reservations/ReservationForm.js:38-45 | The moment 2024-01-03 00:00 is 19725 days of milliseconds after the epoch. |
| BookingPolicy.OnlyHoursApply | front-end/src/reservations/ReservationForm.js:88-90 | A slot neither in the past nor on a Tuesday is judged by its time of day alone. |
| BookingPolicy.NotPastOnWednesday20240103 | front-end/src/reservations/ReservationForm.js:38-45 | Seen from up to its midnight, no time on 2024-01-03 is in the past. |
| BookingPolicy.OnWednesday20240103 | front-end/src/reservations/ReservationForm.js:88-90 | On 2024-01-03, seen from up to its midnight, the errors are the opening-hours violation alone. |
| BookingPolicy.WednesdayMorningExamples | front-end/src/reservations/ReservationForm.js:60-66 | On 2024-01-03, 10:29 is before opening and 10:30 is fine. |
| BookingPolicy.WednesdayEveningExamples | front-end/src/reservations/ReservationForm.js:68-85 | On 2024-01-03, 21:30 is fine, 21:45 is too close to closing and 22:30 is after closing. |
| BookingPolicy.MessagesDistinct | front-end/src/reservations/ReservationForm.js:43-84 | The five messages are pairwise different. |
| Calendar.Weekday | front-end/src/reservations/ReservationForm.js:48 | `getUTCDay()` is between 0 and 6. |
| Calendar.NextDayIsOneLater | front-end/src/reservations/ReservationForm.js:48 | Consecutive dates have consecutive day numbers, across month, February and year ends in every leap-year case. |
| Calendar.NextDayWeekday | front-end/src/reservations/ReservationForm.js:48 | The weekday advances by one, modulo 7, from each valid date to the next. |
| Calendar.EpochIsThursday | front-end/src/reservations/ReservationForm.js:48 | 1970-01-01 is day 0 and a Thursday (weekday 4). |
| Calendar.January2024Weekdays | front-end/src/reservations/ReservationForm.js:48 | 2024-01-02 has UTC weekday 2 and 2024-01-03 has weekday 3. |
| Calendar.DateKeyOrdersDates | back-end/src/reservations/reservations.service.js:45 | On valid dates, the date key orders them chronologically and identifies them. |
| Calendar.MinuteOfDayOrdersTimes | back-end/src/reservations/reservations.service.js:10 | The minute of the day orders times chronologically and identifies them. |
| ReservationsService.Where | back-end/src/reservations/reservations.service.js:8-9 | The kept rows are exactly those satisfying the condition, each with its stored multiplicity. |
| ReservationsService.SortBy | back-end/src/reservations/reservations.service.js:10 | `orderBy` gives a permutation in non-decreasing key order. |
| ReservationsService.List | back-end/src/reservations/reservations.service.js:5-11 | Every listed row is a stored row of that date that is not "finished". The list is in non-decreasing reservation time. |
| ReservationsService.ListKeepsExactly | back-end/src/reservations/reservations.service.js:5-9 | `list(date)` holds exactly the rows of that date whose status is not "finished", each as often as stored. |
| ReservationsService.ListShowsSeatedAndCancelled | back-end/src/reservations/reservations.service.js:9 | "seated", "cancelled" and "booked" rows of the date are listed. |
| ReservationsService.ListSortedByTime | back-end/src/reservations/reservations.service.js:10 | `list` is in non-decreasing reservation time. |
| ReservationsService.QueryDigitsMembers | back-end/src/reservations/reservations.service.js:43 | The query keeps exactly its digits. |
| ReservationsService.StripSeparatorsMembers | back-end/src/reservations/reservations.service.js:42 | A stored number loses exactly `(`, `)`, space and `-`. |
| ReservationsService.Search | back-end/src/reservations/reservations.service.js:39-46 | Every row found is a stored row whose number matches the query. The result is in non-decreasing reservation date. |
| ReservationsService.SearchFindsExactly | back-end/src/reservations/reservations.service.js:41-43 | A row is found iff the query's digits occur as a substring of its stripped number, each as often as stored. |
| ReservationsService.SearchWithoutDigitsFindsAll | back-end/src/reservations/reservations.service.js:43 | A query with no digits (pattern `%%`) finds every row. |
| ReservationsService.SearchSortedByDate | back-end/src/reservations/reservations.service.js:45 | `search` is in non-decreasing reservation date. |
| ReservationsService.StripAroundSeparator | back-end/src/reservations/reservations.service.js:42 | A separator between two parts of a number vanishes. |
| ReservationsService.QueryAroundHyphen | back-end/src/reservations/reservations.service.js:43 | A hyphen between two parts of a query vanishes. |
| ReservationsService.HyphenatedNumber | back-end/src/reservations/reservations.service.js:42 | A number written as hyphen-joined digit groups compares as its digits alone. |
| ReservationsService.SearchExampleFullNumber | back-end/src/reservations/reservations.service.js:41-43 | 808-555-1212 matches "5551212". |
| ReservationsService.SearchExampleFragment | back-end/src/reservations/reservations.service.js:41-43 | 808-555-1212 matches "555-121". |
| ReservationsService.MissingDigitNeverMatches | back-end/src/reservations/reservations.service.js:41-43 | A query digit absent from the stored number rules the row out. |
| ReservationsService.SearchExampleThatMisses | back-end/src/reservations/reservations.service.js:41-43 | 808-555-1212 does not match "9999". |
| ReservationsService.Read | back-end/src/reservations/reservations.service.js:19-21 | A row is returned iff some row has the id, and it is a stored row with that id. |
| ReservationsService.ReadFindsTheRow | back-end/src/reservations/reservations.service.js:19-21 | Under the primary key, `read` returns the one row with that id. |
| ReservationsService.ById | back-end/src/reservations/reservations.service.js:19-21 | The map view of the table: each row sits under its own id, and every key is some row's id. |
| ReservationsService.ReadAgreesWithById | back-end/src/reservations/reservations.service.js:19-21 | Under the primary key, `read` finds a row iff the map view holds it under that id, and returns that row. |
| ReservationsService.ReservationTable.ReadRow | back-end/src/reservations/reservations.service.js:19-21 | `read` over the table's current rows, with the same guarantees. |
| ReservationsService.ReservationTable.Create | back-end/src/reservations/reservations.service.js:13-17 | The row is appended under the next serial id, returned, and readable. |
| ReservationsService.ReservationTable.UpdateStatus | back-end/src/reservations/reservations.service.js:23-29 | Only the status of rows with that id changes. The updated row is returned iff it existed. |
| ReservationsService.Merge | back-end/src/reservations/reservations.service.js:35 | An update never changes the row's id. |
| ReservationsService.MergeFullPatch | back-end/src/reservations/reservations.service.js:35 | A patch that carries a whole row, as the edit screen sends, replaces the stored row with it. |
| ReservationsService.MergeEmptyPatch | back-end/src/reservations/reservations.service.js:35 | A patch with no column besides the id leaves the row unchanged. |
| ReservationsService.MergeIdempotent | back-end/src/reservations/reservations.service.js:35 | Applying the same patch twice changes nothing more. |
| ReservationsService.MergePeopleOnly | back-end/src/reservations/reservations.service.js:35 | A patch of `people` alone changes only `people`. |
| ReservationsService.ReservationTable.UpdateReservation | back-end/src/reservations/reservations.service.js:31-37 | The row with the patch's id gets the columns the patch carries and keeps the rest. No other row changes. The merged row is returned iff one existed. |
| Text.Contains | back-end/src/reservations/reservations.service.js:42-43 | `like '%p%'` holds iff the pattern occurs at some position. |
| MinLength.Name | back-end/src/errors/hasMinLength.js:13-16 | The name starts with "hasMinLength" and continues with the upper-cased property. Its length is fixed by the property and the printed minimum. |
| MinLength.NameIdentifies | back-end/src/errors/hasMinLength.js:13-16 | Two validators with the same name have the same upper-cased property and the same minimum. |
| MinLength.Apply | back-end/src/errors/hasMinLength.js:2-12 | Success returns the argument unchanged. `null` gets no default and throws. Every other failure is 400 "The '<property>' property must be at least <n> characters.". |
| MinLength.AcceptsLongEnough | back-end/src/errors/hasMinLength.js:3-6 | A truthy value whose `length` (an object's own member included) compares ≥ minLength is accepted and the data returned unchanged. |
| MinLength.RejectsOtherwise | back-end/src/errors/hasMinLength.js:7-11 | Any value that is falsy or whose `length` does not compare ≥ minLength is refused with that 400 error. |
| MinLength.StringRule | back-end/src/errors/hasMinLength.js:3-4 | A string is accepted iff it is non-empty and has at least minLength characters. |
| MinLength.AcceptsObjectWithLength | back-end/src/errors/hasMinLength.js:3-6 | An object with an own numeric `length` ≥ minLength is accepted. |
| MinLength.RejectsObjectWithoutLength | back-end/src/errors/hasMinLength.js:3-11 | An object without a `length` member compares `undefined` and is refused. |
| MinLength.RejectsEmptyString | back-end/src/errors/hasMinLength.js:4 | An empty string is refused for every minLength, 0 included. |
| MinLength.AcceptsEmptyArrayAtZero | back-end/src/errors/hasMinLength.js:4 | An empty array is truthy, so it passes at minLength ≤ 0. |
| MinLength.RejectsNumber | back-end/src/errors/hasMinLength.js:4 | A number has no `length` and is refused. |
| MinLength.RejectsAbsent | back-end/src/errors/hasMinLength.js:3-4 | A missing property is refused. |
| MinLength.RejectsNoArgument | back-end/src/errors/hasMinLength.js:2 | A call without an argument checks `{}` and is refused. |
| MinLength.NullArgumentThrows | back-end/src/errors/hasMinLength.js:2-3 | A `null` argument gets no `{}` default: reading its property throws instead of the 400. |
| MinLength.RejectsScalarArgument | back-end/src/errors/hasMinLength.js:3-11 | A number or a boolean argument has no own properties and is refused with the 400. |
| MinLength.StringArgumentIndex | back-end/src/errors/hasMinLength.js:3-6 | A string argument has its characters as own properties: `hasMinLength("0", 1)` passes any non-empty string. |

## Left out

- **Dates, times and time zones.** JavaScript `Date` parsing is not modelled, and neither are time zones or DST: the local "now" comparison and `getHours` are read on one wall clock, while `getUTCDay` reads the bare date.
- **Invalid dates.** These validate methods require a valid time of day. The screens' Invalid Date path (NaN comparisons add no error) is not modelled.
- **JavaScript numbers.** Numbers are exact reals: NaN and Infinity do not occur.
- **People and capacity** are integers.
- **Request parameters.** `table_id` is an integer. The textual path parameter and `Number("abc")` are not modelled.
- **Request ids.** A `reservation_id` in a request is an integer or absent. The string ids that knex would coerce are not modelled.
- **Text.ToUpper** covers ASCII letters only. Neither Unicode case mapping nor UTF-16 `length` is modelled.
- **Js.Keys** lists keys in insertion order. JavaScript's rule that integer-like keys come first is not modelled.
- Js.ToNumber: null and booleans convert as in JavaScript, but every string, array and object counts as NaN. So a `length` member holding numeric text such as `"5"`, or a one-number array such as `[5]`, fails the comparison in `MinLength.Apply` and `TablesController.TableNameIsValid`, where JavaScript would convert it first.
- Js.Get reads the first member with a key, while `JSON.parse` keeps the last. They agree on parsed bodies, which have unique keys (`UniqueKeys`). The lemmas that look a member up require unique keys.
- Js.Property reads own properties only. Inherited ones, such as `toString` on every object, are not modelled.
- MinLength.Apply: a `null` argument ends in `Threw`. The status and message that the application's error handler gives the TypeError are not part of this model.
- Column nulls: every column of a reservation row is taken as non-null; the schema is not part of this model. In SQL, `whereNot({status: "finished"})` also hides a row whose status is NULL, and a NULL `mobile_number` matches no search pattern, not even `%%`. So `ReservationsService.ListKeepsExactly` and `ReservationsService.SearchWithoutDigitsFindsAll` hold only for non-null columns.
- TablesController.CreateCheck: `data: null` ends in `Threw`. The status and message that the application's error handler gives the TypeError are not part of this model.
- ReservationsService.ReservationTable.UpdateReservation: the patch always carries `reservation_id`. A call without it is not modelled; knex refuses the undefined binding. Columns outside the row datatype, such as `created_at`, are not modelled either.
- **hasProperties.js** (the required-properties validator) is not part of this model. `FirstMissing` assumes that a required property must be present and truthy. Its error is the `MissingRequired` constructor, because its message is not known.
- **tables.service.js** is not part of this model. Its `update` is one atomic step that writes the table and the reservation status. Transactions, rollback and concurrent seats are not modelled, and `create` and `list` on tables are left out.
- **TablesController.SeatOutcome** and **TablesController.FinishOutcome** return the updated table as the response data, because the one `update` handler serves both chains. The value that `tables.service.update` really returns is not known.
- **Database and HTTP plumbing.** knex, SQL, Express `next`/`res` and `asyncErrorBoundary` are not modelled. `res.locals` becomes local variables of `Seat` and `Finish`.
- **Handlers with no rule.** The `list`/`read` and `create` handlers only forward a service result, so they have no body here beyond `ReadTable`.
- **Sort ties.** `list` and `search` are proved sorted and permutations; the tie order SQL would choose is not fixed.
- **Dead checks.** The checks at the ends of `occupyTable` and `deOccupyTable` (tables.controller.js:95 and :120) can never fail. They appear as assertions, and their error messages are not modelled.
- **ReservationsService.ReservationTable.Create** numbers rows by a counter and replaces any `reservation_id` the caller supplies. The source's insert would store a supplied id as given, or fail on a duplicate. Database defaults such as `created_at` and column validation are not modelled.
- **ReservationSeat.js, the dashboard, the table form, the search page** and the rest of the user interface are not part of this model.
- **Status lifecycle.** No transition rules exist in the shown code. Only "seated" blocks seating, and only "finished" is hidden by `list`.
