/** `AppointmentController.store` as an operation on the appointment table,
    which it changes in place through `Appointment.create`. */
module Controller {
  import opened Clock
  import opened Ledger
  import opened Booking

  /** The appointment table. Ids are handed out from a counter that is
      always above every id in the table. */
  class AppointmentTable {
    var rows: seq<Appointment>
    var nextId: int

    ghost predicate Valid()
      reads this
    {
      DistinctIds(rows) && IdsBelow(rows, nextId)
    }

    /** A table that already holds `initial`; new ids start above its largest id. */
    constructor (initial: seq<Appointment>)
      requires DistinctIds(initial)
      ensures Valid()
      ensures rows == initial
    {
      rows := initial;
      nextId := MaxId(initial) + 1;
    }

    /** The handler for a booking request: `userId` is the authenticated
        requester, `body` the request body, `users` the user directory
        (id to provider flag) and `now` the server clock. Each guard either
        answers with its error and leaves the table as it was, or passes to
        the next; when all pass, one row is created and returned. */
    method Store(users: map<int, bool>, userId: int, body: Body, now: int) returns (res: Response)
      requires Valid()
      modifies this
      ensures Valid()
      ensures res == Book(users, old(rows), old(nextId), userId, body, now).response
      ensures rows == Book(users, old(rows), old(nextId), userId, body, now).rows
      ensures nextId == Book(users, old(rows), old(nextId), userId, body, now).nextId
    {
      if !IsProvider(users, body.providerId) {
        return Rejected(NotAProvider);
      }
      if !SchemaValid(body) {
        return Rejected(InvalidSchema);
      }
      var providerId, date := body.providerId.value, body.date.value;
      var hourStart := StartOfHour(date);
      if hourStart < now {
        return Rejected(PastDate);
      }
      var checkAppointment := FindActive(rows, providerId, hourStart);
      if checkAppointment.Some? {
        return Rejected(SlotTaken);
      }
      var appointment := Appointment(nextId, userId, providerId, date, None);
      rows := rows + [appointment];
      nextId := nextId + 1;
      res := Created(appointment);
    }
  }

  /** Two requests for the same provider at the same on-the-hour instant,
      on a table that starts empty: the first is booked, the second is
      refused as taken, and the table ends holding only the first booking. */
  method SecondBookingOfSlotRefused(users: map<int, bool>, body: Body, now: int, first: int, second: int)
    returns (r1: Response, r2: Response, rows: seq<Appointment>)
    requires IsProvider(users, body.providerId) && SchemaValid(body)
    requires OnTheHour(body.date.value) && now <= body.date.value
    ensures r1.Created? && r1.appointment.userId == first && r1.appointment.date == body.date.value
    ensures r2 == Rejected(SlotTaken)
    ensures rows == [r1.appointment]
  {
    var table := new AppointmentTable([]);
    r1 := table.Store(users, first, body, now);
    StartOfHourIdempotent(body.date.value);
    assert Occupies(table.rows[0], body.providerId.value, StartOfHour(body.date.value));
    r2 := table.Store(users, second, body, now);
    rows := table.rows;
  }
}
