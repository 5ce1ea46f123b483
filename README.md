# GoBarber appointment booking: a verified model

GoBarber is a barber-shop scheduling API. The handler
`AppointmentController.store` books an appointment for the authenticated
requester with a provider. Its request body holds `{ provider_id, date }`. It
runs a fixed chain of checks. Each failing check answers HTTP 400 with its own error
message and stops. The checks are, in order:

1. the target must be a provider;
2. the body must match the schema;
3. the date, truncated to the start of its hour, must not be before the server clock;
4. no active appointment of the provider may sit at that truncated hour.

When every check passes, one row `{ user_id, provider_id, date }` is created
with `canceled_at` null and returned.

The project models this handler.

- `clock.dfy` (module `Clock`): time in milliseconds and `startOfHour`.
- `ledger.dfy` (module `Ledger`): the appointment table, the active-slot
  lookup and the exclusivity predicates.
- `booking.dfy` (module `Booking`): the request body, the guard chain as a
  function (`Decide`) and one booking as a function on values (`Book`).
- `controller.dfy` (module `Controller`): the table as a class. `Store` is
  the handler. It changes the table in place and is proved against `Book`.
- `replay.dfy` (module `Replay`): requests handled one after another, and
  what that does to slot exclusivity.

The model follows the code on one point that matters. The slot check looks
for an active row whose `date` equals the truncated hour. The new row,
however, stores the raw requested `date`. So stored dates need not be on the
hour, and the check does not by itself keep one active booking per provider
and hour. The model proves exclusivity only when every requested date is
already on the hour (`Replay.HourExclusiveWhenRequestsOnTheHour`). It also
proves two counterexamples for dates that are not on the hour
(`Replay.SameUnalignedDateBookedTwice`, `Replay.SameHourBookedTwice`).

The server clock (`new Date()`) is the parameter `now`. The authenticated
requester (`req.userId`) is the parameter `userId`. The user directory that
`User.findOne` consults is the parameter `users`, a map from user id to the
`provider` flag.

## Model

| member | source | states |
|---|---|---|
| Clock.StartOfHour | src/app/controllers/AppointmentController.js:26 | the truncated hour is at or before `t`, less than one hour before it, and on an hour boundary |
| Clock.StartOfHourGreatest | src/app/controllers/AppointmentController.js:26 | the truncated hour is the latest hour boundary at or before `t` |
| Clock.StartOfHourUnique | src/app/controllers/AppointmentController.js:26 | every instant of the hour that starts at boundary `h` truncates to `h` |
| Clock.StartOfHourIdempotent | src/app/controllers/AppointmentController.js:26 | truncating twice equals truncating once; an instant on the hour is unchanged |
| Clock.SameHour | src/app/controllers/AppointmentController.js:26 | two instants of the same hour (13:47 and 13:59) truncate to the same boundary |
| Clock.StartOfHourMonotone | src/app/controllers/AppointmentController.js:26 | truncation preserves the order of instants |
| Clock.HourBeforeIff | src/app/controllers/AppointmentController.js:26-27 | the truncated hour is before `now` exactly when the date is before the first hour boundary at or after `now` |
| Ledger.FindActive | src/app/controllers/AppointmentController.js:31-33 | the lookup finds a row exactly when some row has the provider, a null `canceled_at` and the given date; any row it returns is such a row of the table |
| Ledger.CanceledRowsNeverBlock | src/app/controllers/AppointmentController.js:32 | if every row of the provider at that date is canceled, the lookup finds nothing |
| Ledger.AlignedExclusiveByHour | src/app/controllers/AppointmentController.js:31-44 | when all stored dates are on the hour, distinct active dates per provider means distinct active hours per provider |
| Booking.MessageIdentifiesError | src/app/controllers/AppointmentController.js:18-37 | the four refusals carry four different error messages |
| Booking.Message | src/app/controllers/AppointmentController.js:19-36 | the `error` text of each refusal: "User is not a Provider!" (:19), "Data Appointment is not valid!" (:23), "Date is not valid!" (:28), "Appointment date with this provider is not avaliable!" (:36) |
| Booking.StatusMatchesEffect | src/app/controllers/AppointmentController.js:18-45 | a response has status 400 exactly when the table and id counter are unchanged, and 200 exactly when one row was added |
| Booking.IsProvider | src/app/controllers/AppointmentController.js:15-18 | the provider lookup finds a user exactly when `provider_id` is given, names a user of the directory, and that user's provider flag is set |
| Booking.SchemaValid | src/app/controllers/AppointmentController.js:8-11 | the Yup schema holds exactly when `provider_id` is a number and `date` is present and parses |
| Booking.Decide | src/app/controllers/AppointmentController.js:15-38 | the guard chain admits a request exactly when the target is a provider, the body is valid, the truncated hour is not before `now` and no row of the table is active for that provider at that hour; an admitted request keeps the requested provider and the raw, untruncated date |
| Booking.Book | src/app/controllers/AppointmentController.js:15-45 | a refusal leaves the table and the id counter unchanged; a booking succeeds exactly when the target is a provider, the body is valid, the truncated hour is not before `now` and no active row sits at it; on success exactly one row is appended, holding id `nextId` (fresh by `Booking.BookKeepsIds`), the requester, the provider, the raw requested date and a null `canceled_at`, and that row is returned |
| Booking.FirstFailingCheck | src/app/controllers/AppointmentController.js:15-38 | in the handler's response, each error fires exactly when every earlier check passes and its own check fails, in the order provider, schema, past hour, slot taken |
| Booking.ProviderCheckWins | src/app/controllers/AppointmentController.js:15-24 | when the target is not a provider, the answer is "User is not a Provider!", whatever else is wrong with the body |
| Booking.PastDateIff | src/app/controllers/AppointmentController.js:26-29 | given a provider and a valid body, "Date is not valid!" fires exactly when the date is before the first hour boundary at or after `now`; a truncated hour equal to `now` is not refused |
| Booking.RestOfCurrentHourRefused | src/app/controllers/AppointmentController.js:26-29 | when `now` is not on the hour, a date later in the current hour is refused as past |
| Booking.CanceledNeverBlocks | src/app/controllers/AppointmentController.js:31-38 | canceled rows at the requested hour never block a booking that passes the earlier checks |
| Booking.StoredDateNotTruncated | src/app/controllers/AppointmentController.js:26-44 | a booking at 10:30 is accepted and stored at 10:30, not at its truncated hour |
| Booking.BookKeepsSlotExclusive | src/app/controllers/AppointmentController.js:31-44 | a request whose date is on the hour keeps the active dates of each provider distinct |
| Booking.BookKeepsOnTheHour | src/app/controllers/AppointmentController.js:40-44 | a request whose date is on the hour keeps every stored date on the hour |
| Booking.BookKeepsIds | src/app/controllers/AppointmentController.js:40-44 | booking keeps ids distinct and below the id counter |
| Controller.AppointmentTable.Store | src/app/controllers/AppointmentController.js:7-46 | the handler's response, new table and new id counter are those of `Book` on the old table; the id invariant is kept |
| Controller.SecondBookingOfSlotRefused | src/app/controllers/AppointmentController.js:31-44 | two requests for one provider at one on-the-hour date: the first is booked for its requester at that date, the second is refused as "not avaliable", and the table ends holding only the first booking |
| Replay.Run | src/app/controllers/AppointmentController.js:40-44 | handling a sequence of requests only appends rows: earlier rows stay unchanged and in place, and the id counter never decreases |
| Replay.RunKeepsSlotExclusive | src/app/controllers/AppointmentController.js:31-44 | requests whose dates are on the hour keep each provider's active dates distinct |
| Replay.RunKeepsOnTheHour | src/app/controllers/AppointmentController.js:40-44 | requests whose dates are on the hour keep every stored date on the hour |
| Replay.HourExclusiveWhenRequestsOnTheHour | src/app/controllers/AppointmentController.js:31-44 | starting from an exclusive table whose dates are on the hour, requests whose dates are on the hour leave at most one active booking per provider and hour |
| Replay.RunKeepsIds | src/app/controllers/AppointmentController.js:40-44 | ids stay distinct and below the counter across any sequence of requests |
| Replay.SameUnalignedDateBookedTwice | src/app/controllers/AppointmentController.js:31-44 | two requests for provider 2 at 10:30 are both booked, so two active rows share provider and date |
| Replay.SameHourBookedTwice | src/app/controllers/AppointmentController.js:31-44 | requests at 10:10 and 10:40 for one provider are both booked, so two active rows share provider and hour |

## Left out

- Listing appointments, cancelling them, the cancellation window and the
  provider notification. No handler for them appears in
  `src/app/controllers/AppointmentController.js`. The cancellation e-mail job
  (`src/app/jobs/CancellationMail.js`) only formats and sends mail. Route
  registration (`src/routes.js`) and the database connection settings
  (`src/config/database.js`) are wiring.
- Storage round trips are asynchronous in the source. Here each is one atomic
  step. The race between the slot lookup and the insert under concurrent
  requests is not modelled.
- Yup validation and date-fns `parse`. A body field is `Absent`, `Malformed`
  or `Given(value)`, and the schema holds when both fields are `Given`. The
  model assumes that Yup and `parse` read a date string as the same instant.
  The row stores the raw body value `date`
  (`src/app/controllers/AppointmentController.js:43`), not `parse(date)`. The
  model takes the stored instant to be the one `parse` reads at line 26. If the
  database layer read the string differently, the two instants could differ.
  A date-only string is one case: date-fns 1.x `parse` reads it as local
  midnight, while a JavaScript `Date` reads it as UTC midnight. A row stored from
  an on-the-hour request would then not be found by a later lookup for the same
  hour. `Replay.HourExclusiveWhenRequestsOnTheHour` rests on this assumption.
- Booking.IsProvider: for a missing or non-numeric `provider_id`, the model
  says the provider lookup finds no user. What the database layer actually
  does with such an id (it may raise an error instead) is not part of this model.
- Clock.StartOfHour: truncates in UTC. This equals date-fns `startOfHour`
  only when the server's time zone is a whole number of hours from UTC.
- The table's id counter stands for the database's id assignment.
  `src/app/models/Appointment.js` is not part of this model. The
  `created_at` and `updated_at` timestamps are not modelled.
- The origin of `req.userId` (token authentication) is a parameter. The
  handler does not check who the requester is, so neither does the model:
  self-booking is allowed.
- How a request reaches the handler. The route file `src/routes.js`
  registers only `/`, `POST /users` and `POST /sessions` and does not import
  `AppointmentController`, so the model starts at the handler itself.
- JSON serialisation of the response body and the Express response object.
