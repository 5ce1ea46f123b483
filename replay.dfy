/** Sequences of booking requests handled one after another, each as one
    atomic step, and what they do to slot exclusivity. */
module Replay {
  import opened Clock
  import opened Ledger
  import opened Booking

  /** One booking request: the requester, the body, and the server clock when it is handled. */
  datatype Request = Request(userId: int, body: Body, now: int)

  /** The appointment table and its next id. */
  datatype Table = Table(rows: seq<Appointment>, nextId: int)

  /** Every requested date in `reqs` that is given lies on an hour boundary. */
  predicate RequestsOnTheHour(reqs: seq<Request>) {
    forall k :: 0 <= k < |reqs| && reqs[k].body.date.Given? ==> OnTheHour(reqs[k].body.date.value)
  }

  /** The table after handling `reqs` in order. Rows are only ever appended:
      the rows already in the table stay, unchanged and in place. */
  function Run(users: map<int, bool>, t: Table, reqs: seq<Request>): (r: Table)
    ensures t.rows <= r.rows
    ensures t.nextId <= r.nextId
    decreases |reqs|
  {
    if reqs == [] then t
    else
      var o := Book(users, t.rows, t.nextId, reqs[0].userId, reqs[0].body, reqs[0].now);
      Run(users, Table(o.rows, o.nextId), reqs[1..])
  }

  /** Handling requests whose dates are on the hour keeps the stored dates
      of each provider's active rows distinct. */
  lemma {:induction false} RunKeepsSlotExclusive(users: map<int, bool>, t: Table, reqs: seq<Request>)
    requires SlotExclusive(t.rows)
    requires RequestsOnTheHour(reqs)
    ensures SlotExclusive(Run(users, t, reqs).rows)
    decreases |reqs|
  {
    if reqs != [] {
      var q := reqs[0];
      BookKeepsSlotExclusive(users, t.rows, t.nextId, q.userId, q.body, q.now);
      var o := Book(users, t.rows, t.nextId, q.userId, q.body, q.now);
      assert forall k :: 0 <= k < |reqs[1..]| ==> reqs[1..][k] == reqs[k + 1];
      RunKeepsSlotExclusive(users, Table(o.rows, o.nextId), reqs[1..]);
    }
  }

  /** Handling requests whose dates are on the hour keeps every stored date on the hour. */
  lemma {:induction false} RunKeepsOnTheHour(users: map<int, bool>, t: Table, reqs: seq<Request>)
    requires AllOnTheHour(t.rows)
    requires RequestsOnTheHour(reqs)
    ensures AllOnTheHour(Run(users, t, reqs).rows)
    decreases |reqs|
  {
    if reqs != [] {
      var q := reqs[0];
      BookKeepsOnTheHour(users, t.rows, t.nextId, q.userId, q.body, q.now);
      var o := Book(users, t.rows, t.nextId, q.userId, q.body, q.now);
      assert forall k :: 0 <= k < |reqs[1..]| ==> reqs[1..][k] == reqs[k + 1];
      RunKeepsOnTheHour(users, Table(o.rows, o.nextId), reqs[1..]);
    }
  }

  /** Slot exclusivity (at most one active booking per provider and hour)
      holds after any sequence of requests, provided the table started
      with it and every requested date is already on the hour. */
  lemma HourExclusiveWhenRequestsOnTheHour(users: map<int, bool>, t: Table, reqs: seq<Request>)
    requires AllOnTheHour(t.rows) && SlotExclusive(t.rows)
    requires RequestsOnTheHour(reqs)
    ensures HourExclusive(Run(users, t, reqs).rows)
  {
    RunKeepsSlotExclusive(users, t, reqs);
    RunKeepsOnTheHour(users, t, reqs);
    AlignedExclusiveByHour(Run(users, t, reqs).rows);
  }

  /** Handling requests keeps ids distinct and below the next id. */
  lemma {:induction false} RunKeepsIds(users: map<int, bool>, t: Table, reqs: seq<Request>)
    requires DistinctIds(t.rows) && IdsBelow(t.rows, t.nextId)
    ensures var r := Run(users, t, reqs); DistinctIds(r.rows) && IdsBelow(r.rows, r.nextId)
    decreases |reqs|
  {
    if reqs != [] {
      var q := reqs[0];
      BookKeepsIds(users, t.rows, t.nextId, q.userId, q.body, q.now);
      var o := Book(users, t.rows, t.nextId, q.userId, q.body, q.now);
      RunKeepsIds(users, Table(o.rows, o.nextId), reqs[1..]);
    }
  }

  /** Without the alignment assumption slot exclusivity fails: two bookings
      of provider 2 at 10:30 are both accepted, because the check looks for
      a row at 10:00 while each row is stored at 10:30. */
  lemma SameUnalignedDateBookedTwice()
    ensures var body := Body(Given(2), Given(37800000));
            var r := Run(map[2 := true], Table([], 1), [Request(1, body, 0), Request(3, body, 0)]);
            |r.rows| == 2 && r.rows[0].date == r.rows[1].date && !SlotExclusive(r.rows)
  {
    var body := Body(Given(2), Given(37800000));
    var users := map[2 := true];
    assert StartOfHour(37800000) == 36000000;
    var o1 := Book(users, [], 1, 1, body, 0);
    assert o1.response.Created?;
    var o2 := Book(users, o1.rows, o1.nextId, 3, body, 0);
    assert FindActive(o1.rows, 2, 36000000).None?;
    assert o2.response.Created?;
    var reqs := [Request(1, body, 0), Request(3, body, 0)];
    assert reqs[1..] == [Request(3, body, 0)];
    assert Run(users, Table([], 1), reqs) == Run(users, Table(o1.rows, o1.nextId), reqs[1..]);
  }

  /** Nor does the check keep one active booking per hour: 10:10 and 10:40
      for the same provider are both accepted. */
  lemma SameHourBookedTwice()
    ensures var r := Run(map[2 := true], Table([], 1),
                         [Request(1, Body(Given(2), Given(36600000)), 0), Request(3, Body(Given(2), Given(38400000)), 0)]);
            |r.rows| == 2 && StartOfHour(r.rows[0].date) == StartOfHour(r.rows[1].date) && !HourExclusive(r.rows)
  {
    var users := map[2 := true];
    var b1, b2 := Body(Given(2), Given(36600000)), Body(Given(2), Given(38400000));
    assert StartOfHour(36600000) == 36000000;
    assert StartOfHour(38400000) == 36000000;
    var o1 := Book(users, [], 1, 1, b1, 0);
    assert o1.response.Created?;
    var o2 := Book(users, o1.rows, o1.nextId, 3, b2, 0);
    assert FindActive(o1.rows, 2, 36000000).None?;
    assert o2.response.Created?;
    var reqs := [Request(1, b1, 0), Request(3, b2, 0)];
    assert reqs[1..] == [Request(3, b2, 0)];
    assert Run(users, Table([], 1), reqs) == Run(users, Table(o1.rows, o1.nextId), reqs[1..]);
  }
}
