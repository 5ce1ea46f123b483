/** The booking rule of `AppointmentController.store`: a fixed chain of
    guards, each ending the request with its own HTTP 400 error, followed by
    a single insert into the appointment table. */
module Booking {
  import opened Clock
  import opened Ledger

  /** A field of the JSON request body: missing, present but not of the
      expected kind (not a number, a date that does not parse), or present
      with the value it denotes (a number, or a date as milliseconds). */
  datatype Field<T> = Absent | Malformed | Given(value: T)

  /** The request body `{ provider_id, date }`. */
  datatype Body = Body(providerId: Field<int>, date: Field<int>)

  /** The four ways a booking is refused, in the order they are checked. */
  datatype Error = NotAProvider | InvalidSchema | PastDate | SlotTaken

  /** What the guard chain decides: refuse with an error, or admit a booking
      of `providerId` at the requested (untruncated) `date`. */
  datatype Verdict = Refuse(error: Error) | Admit(providerId: int, date: int)

  /** What the handler answers: a 400 with an error message, or the created row. */
  datatype Response = Rejected(error: Error) | Created(appointment: Appointment)

  /** The response, the table and the next id after one booking request. */
  datatype Booked = Booked(response: Response, rows: seq<Appointment>, nextId: int)

  /** The `error` text of each refusal. */
  function Message(e: Error): string {
    match e
    case NotAProvider => "User is not a Provider!"
    case InvalidSchema => "Data Appointment is not valid!"
    case PastDate => "Date is not valid!"
    case SlotTaken => "Appointment date with this provider is not avaliable!"
  }

  /** Each refusal is told apart by its message. */
  lemma MessageIdentifiesError(a: Error, b: Error)
    requires Message(a) == Message(b)
    ensures a == b
  {
  }

  /** The HTTP status of a response: every refusal is a 400, a booking is a 200. */
  function Status(r: Response): int {
    if r.Rejected? then 400 else 200
  }

  /** The status tells the caller whether the table changed: a 400 answers
      exactly the requests that leave the table and the id counter as they
      were, a 200 exactly those that added a row. */
  lemma StatusMatchesEffect(users: map<int, bool>, rows: seq<Appointment>, nextId: int,
                            userId: int, body: Body, now: int)
    ensures var o := Book(users, rows, nextId, userId, body, now);
            Status(o.response) == 400 <==> o.rows == rows && o.nextId == nextId
    ensures var o := Book(users, rows, nextId, userId, body, now);
            Status(o.response) == 200 <==> |o.rows| == |rows| + 1
  {
  }

  /** `User.findOne({ where: { provider: true, id: provider_id } })` finds a
      user: the id names a user of the directory whose provider flag is set.
      The directory maps each user id to that flag. */
  predicate IsProvider(users: map<int, bool>, providerId: Field<int>) {
    providerId.Given? && providerId.value in users && users[providerId.value]
  }

  /** The Yup schema: `provider_id` is a number and `date` is present and parses. */
  predicate SchemaValid(body: Body) {
    body.providerId.Given? && body.date.Given?
  }

  /** The guard chain, in the order the handler runs it. */
  function Decide(users: map<int, bool>, rows: seq<Appointment>, body: Body, now: int): (v: Verdict)
    ensures v.Admit? <==>
              IsProvider(users, body.providerId) && SchemaValid(body)
              && now <= StartOfHour(body.date.value)
              && forall i :: 0 <= i < |rows| ==> !Occupies(rows[i], body.providerId.value, StartOfHour(body.date.value))
    ensures v.Admit? ==> v.providerId == body.providerId.value && v.date == body.date.value
  {
    if !IsProvider(users, body.providerId) then Refuse(NotAProvider)
    else if !SchemaValid(body) then Refuse(InvalidSchema)
    else
      var hourStart := StartOfHour(body.date.value);
      if hourStart < now then Refuse(PastDate)
      else if FindActive(rows, body.providerId.value, hourStart).Some? then Refuse(SlotTaken)
      else Admit(body.providerId.value, body.date.value)
  }

  /** One booking request by `userId` against the table `rows`, whose next
      id is `nextId`. A refusal leaves the table alone; an admitted booking
      appends exactly one active row holding the raw requested date and
      returns that row. */
  function Book(users: map<int, bool>, rows: seq<Appointment>, nextId: int,
                userId: int, body: Body, now: int): (o: Booked)
    ensures o.response.Rejected? ==> o.rows == rows && o.nextId == nextId
    ensures o.response.Created? <==>
              IsProvider(users, body.providerId) && SchemaValid(body)
              && now <= StartOfHour(body.date.value)
              && FindActive(rows, body.providerId.value, StartOfHour(body.date.value)).None?
    ensures o.response.Created? ==>
              o.rows == rows + [o.response.appointment] && o.nextId == nextId + 1
              && o.response.appointment == Appointment(nextId, userId, body.providerId.value, body.date.value, None)
  {
    match Decide(users, rows, body, now)
    case Refuse(e) => Booked(Rejected(e), rows, nextId)
    case Admit(providerId, date) =>
      var a := Appointment(nextId, userId, providerId, date, None);
      Booked(Created(a), rows + [a], nextId + 1)
  }

  /** The handler's refusal is the first failing check, in the order
      provider, schema, past hour, taken slot. */
  lemma FirstFailingCheck(users: map<int, bool>, rows: seq<Appointment>, nextId: int,
                          userId: int, body: Body, now: int)
    ensures Book(users, rows, nextId, userId, body, now).response == Rejected(NotAProvider) <==>
              !IsProvider(users, body.providerId)
    ensures Book(users, rows, nextId, userId, body, now).response == Rejected(InvalidSchema) <==>
              IsProvider(users, body.providerId) && !SchemaValid(body)
    ensures Book(users, rows, nextId, userId, body, now).response == Rejected(PastDate) <==>
              IsProvider(users, body.providerId) && SchemaValid(body) && StartOfHour(body.date.value) < now
    ensures Book(users, rows, nextId, userId, body, now).response == Rejected(SlotTaken) <==>
              IsProvider(users, body.providerId) && SchemaValid(body) && now <= StartOfHour(body.date.value)
              && exists i :: 0 <= i < |rows| && Occupies(rows[i], body.providerId.value, StartOfHour(body.date.value))
  {
  }

  /** The provider check comes first: a body that is also malformed, or a
      date in the past, still gets "User is not a Provider!". */
  lemma ProviderCheckWins(users: map<int, bool>, rows: seq<Appointment>, body: Body, now: int)
    requires !IsProvider(users, body.providerId)
    ensures forall nextId, userId :: Book(users, rows, nextId, userId, body, now).response == Rejected(NotAProvider)
  {
  }

  /** With a provider and a valid body, the request is refused as past exactly
      when the requested date is before the first hour boundary at or after
      `now`. So a date later in the hour that is under way is refused unless
      `now` is itself on the hour, and a truncated hour equal to `now` is not refused. */
  lemma PastDateIff(users: map<int, bool>, rows: seq<Appointment>, body: Body, now: int)
    requires IsProvider(users, body.providerId) && SchemaValid(body)
    ensures Decide(users, rows, body, now) == Refuse(PastDate) <==> body.date.value < FirstBoundaryFrom(now)
    ensures StartOfHour(body.date.value) == now ==> Decide(users, rows, body, now) != Refuse(PastDate)
  {
    HourBeforeIff(body.date.value, now);
  }

  /** A later instant of the hour under way is refused as past when `now` is not on the hour. */
  lemma RestOfCurrentHourRefused(users: map<int, bool>, rows: seq<Appointment>, body: Body, now: int)
    requires IsProvider(users, body.providerId) && SchemaValid(body)
    requires !OnTheHour(now) && now <= body.date.value < StartOfHour(now) + HourMs
    ensures Decide(users, rows, body, now) == Refuse(PastDate)
  {
    SameHour(now, body.date.value);
  }

  /** Canceled rows never block a booking: if every row of the provider at
      the requested hour is canceled, the slot check passes. */
  lemma CanceledNeverBlocks(users: map<int, bool>, rows: seq<Appointment>, body: Body, now: int)
    requires IsProvider(users, body.providerId) && SchemaValid(body)
    requires now <= StartOfHour(body.date.value)
    requires forall i ::
               0 <= i < |rows| && rows[i].providerId == body.providerId.value && rows[i].date == StartOfHour(body.date.value)
               ==> rows[i].canceledAt.Some?
    ensures Decide(users, rows, body, now) == Admit(body.providerId.value, body.date.value)
  {
    CanceledRowsNeverBlock(rows, body.providerId.value, StartOfHour(body.date.value));
  }

  /** The slot check compares stored dates with the truncated hour, but the
      row is stored with the raw date: a booking at 10:30 (on 1970-01-01)
      is accepted and stored at 10:30, not at 10:00. */
  lemma StoredDateNotTruncated()
    ensures var o := Book(map[2 := true], [], 1, 1, Body(Given(2), Given(37800000)), 0);
            o.response.Created? && o.response.appointment.date == 37800000
            && o.response.appointment.date != StartOfHour(37800000)
  {
    assert StartOfHour(37800000) == 36000000;
  }

  /** Booking with an hour-aligned date keeps the stored dates of each
      provider's active rows distinct. */
  lemma BookKeepsSlotExclusive(users: map<int, bool>, rows: seq<Appointment>, nextId: int,
                               userId: int, body: Body, now: int)
    requires SlotExclusive(rows)
    requires body.date.Given? ==> OnTheHour(body.date.value)
    ensures SlotExclusive(Book(users, rows, nextId, userId, body, now).rows)
  {
    var o := Book(users, rows, nextId, userId, body, now);
    if o.response.Created? {
      var a := o.response.appointment;
      StartOfHourIdempotent(body.date.value);
      assert o.rows == rows + [a];
    }
  }

  /** Booking keeps every stored date on the hour when the requested date is on the hour. */
  lemma BookKeepsOnTheHour(users: map<int, bool>, rows: seq<Appointment>, nextId: int,
                           userId: int, body: Body, now: int)
    requires AllOnTheHour(rows)
    requires body.date.Given? ==> OnTheHour(body.date.value)
    ensures AllOnTheHour(Book(users, rows, nextId, userId, body, now).rows)
  {
  }

  /** Booking keeps ids distinct and below the next id. */
  lemma BookKeepsIds(users: map<int, bool>, rows: seq<Appointment>, nextId: int,
                     userId: int, body: Body, now: int)
    requires DistinctIds(rows) && IdsBelow(rows, nextId)
    ensures var o := Book(users, rows, nextId, userId, body, now);
            DistinctIds(o.rows) && IdsBelow(o.rows, o.nextId)
  {
  }
}
