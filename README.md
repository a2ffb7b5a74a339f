# EV test-drive booking core, in Dafny

This project models the booking core of the EV test-drive server. The server keeps two
tables, `vehicles` and `reservations`, and answers three requests:

- `POST /check-availability` picks one vehicle of the requested type and location
  that no reservation blocks at the requested start. A reservation blocks a vehicle at an
  instant when its closed interval `[start_date_time, end_date_time]` contains that instant.
  The requested duration is read from the request but never used.
- `POST /schedule-test-drive` inserts one reservation, ending `durationMins * 60000`
  milliseconds after its start. It does not re-check overlap, validate the duration or
  check that the vehicle exists.
- `GET /vehicle-types` lists the distinct vehicle types in ascending order, each as
  `{value: t, name: t}`.

The tables are sequences of rows. The order of `vehicles` stands for the order in which the
database happens to return rows; the source does not fix that order (see "## Left out").
Timestamps are integer milliseconds.

Modules:
- `Query` models `.first()`: the position of the first row that satisfies a filter.
- `Tables` holds the row types. `Vehicle` has the columns of the `vehicles` table;
  `Reservation` has the columns the scheduler writes.
- `Availability` holds the check as the server performs it: a point-in-closed-interval test.
- `Scheduling` holds the inserted row and lemmas on how a booking changes later checks.
- `Catalogue` holds the vehicle-types query. A strict lexicographic order on strings,
  with its lemmas, gives both "sorted" and "no duplicates".
- `Server` holds a class `Database` with the two tables as `seq` fields and the invariant
  `Valid()`: the primary key of `vehicles` (unique ids). It has one method per endpoint.
  The flag `storeFault` stands for a failing database and leads to the 500 answer; in that
  case the insert leaves the table unchanged. The module ends with `TestDriveScenario`, a
  scenario that uses only the contracts: a vehicle is found, booked, and then refused.
- `OverlapVariant` is a clearly separate VARIANT, not the server's behaviour. It checks
  availability with the interval-overlap rule `s1 <= e2 && e1 >= s2` over the requested
  interval `[start, start + duration]`. Its lemmas show that this rule is stricter, that the
  two rules really differ, and that under it a booking refuses every overlapping request.

The check's request carries `durationMins`, which suggests an interval-overlap rule and a
positive duration. The code tests only the start point and accepts any duration, and the
model follows the code. The overlap rule lives only in `OverlapVariant`.

## Model

| member | source | states |
|---|---|---|
| `Query.FirstWhere` | server.js:174 | the position returned holds a row satisfying the filter and every earlier row fails it; no position is returned exactly when every row fails it |
| `Availability.Check` | server.js:164-180 | `Available(id)`: `id` belongs to a row that matches type and location and is not booked at the start, and every earlier row of `vs` fails that test (the model's choice of row; see "## Left out"); `Unavailable` exactly when every vehicle fails it |
| `Availability.AvailableIsEligible` | server.js:164-177 | with unique vehicle ids, the vehicle named by the check has exactly the requested type and location, and none of its reservations has `start <= startDateTime <= end` (inclusive bounds) |
| `Availability.CheckStatusIgnoresOrder` | server.js:164-174 | whether some vehicle is offered is the same for every order of the `vehicles` rows (any permutation); only which vehicle is named depends on the order |
| `Availability.CheckIgnoresDuration` | server.js:161-172 | two requests that differ only in `durationMins` get the same answer |
| `Availability.BookedAtAppend` | server.js:167-172 | after appending a reservation, a vehicle is booked at `t` exactly when it was before, or the new row is its own and covers `t` |
| `Availability.CheckAppendNotCovering` | server.js:167-172 | appending a reservation whose interval misses the requested start leaves the answer unchanged |
| `Availability.CheckAppendCovering` | server.js:167-172 | appending a reservation whose interval contains the requested start keeps its vehicle out of the answer |
| `Scheduling.NewReservation` | server.js:267-276 | the inserted row copies the vehicle id, start and customer fields, lasts `durationMins * 60000` ms, and contains its own start exactly when `durationMins >= 0` |
| `Scheduling.ScheduledIntervalIsTaken` | server.js:267-276 | after a booking, no check whose start lies in `[s, s + d*60000]` names the booked vehicle, for any type or location; with `d >= 0` this includes a check at `s` itself |
| `Scheduling.ScheduleElsewhereIsInert` | server.js:267-276 | a check whose start lies outside the booking's interval gets the same answer as before the booking (the converse of the lemma above) |
| `Scheduling.NegativeDurationBlocksNothing` | server.js:270-272 | a booking with `durationMins < 0` ends before it starts and changes no check's answer |
| `Catalogue.VehicleTypes` | server.js:71-79 | the entries are strictly ascending, each has `name == value`, and the set of values is exactly the set of `type` values in `vehicles` |
| `Catalogue.VehicleTypesDistinct` | server.js:71-73 | no entry appears twice |
| `Catalogue.VehicleTypesIgnoresRowOrder` | server.js:71-73 | two tables with the same set of types get the same answer, whatever their row order or repetitions |
| `Catalogue.AscendingUnique` | server.js:71-73 | a strictly ascending list is determined by the values it holds, so `distinct` plus `orderBy` has exactly one answer |
| `Server.Database.ListVehicleTypes` | server.js:68-86 | 500 exactly on a store fault; otherwise 200 with the vehicle-types list of the current table |
| `Server.Database.CheckAvailability` | server.js:159-185 | 500 exactly on a store fault; otherwise 200 with the check's answer on the current tables, and, with the primary key of `vehicles` holding, the vehicle named has the requested type and location and no reservation of it contains the start. There is no `modifies` clause, so neither table changes; for a fixed row order a repeated check with no booking in between answers the same |
| `Server.Database.ScheduleTestDrive` | server.js:255-283 | on success, exactly one row `NewReservation(b)` is appended and the message "Test drive scheduled successfully" is returned; on a store fault, 500 is returned and nothing changes; `vehicles` never changes, so `Valid()` is kept |
| `OverlapVariant.CheckOverlap` | server.js:166-172 | VARIANT: the same first-eligible-row selection as the model of the server, with the overlap rule over `[start, start + duration]` in place of the start-point test |
| `OverlapVariant.OverlapRuleIsStricter` | server.js:166-172 | with `durationMins >= 0`, whenever the server's check answers `Unavailable`, the overlap check does too |
| `OverlapVariant.ScheduledIntervalRefusesOverlap` | server.js:267-276 | under the overlap rule, a booked vehicle is refused for every requested interval that overlaps its booking |
| `OverlapVariant.StartPointCheckMissesOverlap` | server.js:161 | a concrete case where the two rules differ: a booking 10:00-11:00 and a request at 09:30 for 60 minutes; the server's check offers the vehicle and the overlap check does not |

## Left out

- Express, body-parser, CORS, the Swagger setup and API doc comments, logging and
  `app.listen` (server.js:1-31, 285-289): framework plumbing.
- The knex/PostgreSQL driver. A database failure is the abstract flag `storeFault`, and
  every failure is the 500 answer; which errors the driver raises is not modelled.
- Parsing of date-time strings with `new Date(...)`, and the cast of the request string
  inside the SQL comparison. `startDateTime` is an already-parsed integer. An unparseable
  date, and instants outside the range of JavaScript dates, are not modelled. The model
  assumes that both parses turn the same string into the same instant: the scheduler parses
  it in the Node process's time zone, the check's comparison casts it in the database
  session's time zone, and the UI sends local date-times with no offset. Where the two time
  zones differ, `Scheduling.ScheduledIntervalIsTaken` need not hold of the running server.
- Scheduling.NewReservation: the end is computed on unbounded integers. JavaScript computes
  it in double precision, which is exact only up to 2^53 milliseconds. PostgreSQL timestamps
  have their own range and microsecond precision.
- Catalogue.VehicleTypes: orders strings by character code. PostgreSQL orders by the
  database collation, and that order can differ for letter case and accents.
- Missing request fields (`undefined` values in the request body) and non-integer durations:
  all fields are assumed present and typed.
- The reservation `id` column. The scheduler does not supply it, and the DDL of
  `reservations` is not part of this model. The model assumes the database assigns `id`; if
  it did not, every insert would fail, which the model allows only through `storeFault`.
  Whether the database enforces a foreign key on `vehicle_id` is unknown for the same reason, so a booking of an unknown
  vehicle succeeds in the model, as the handler's code allows.
- Which vehicle the check names when several qualify. The query ends in `.first()` with no
  `orderBy`, so the database does not define which eligible row comes back, and two identical
  checks may name different vehicles. The model names the first eligible row of `vs`, where
  the order of `vs` stands for whatever order the database returns; that choice is the
  model's. The source promises only that some vehicle is offered and that the named vehicle
  is eligible, and `Availability.CheckStatusIgnoresOrder` proves the first part is independent
  of the row order.
- The race between a check and a later booking of the same slot: it is concurrency, and no
  no-overlap invariant is claimed, because the insert does not enforce one.
- The vehicle columns `available_from_time`, `available_to_time`, `available_days` and
  `minimum_minutes_between_bookings` are carried as data only, because no query reads them.
- The React UI (`ev-test-drive-ui/src/App.js`) and the data-import script (`importData.js`):
  user interface and file and database I/O.
