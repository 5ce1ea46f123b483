/** The appointment table: rows `{id, user_id, provider_id, date, canceled_at}`
    and the queries the booking rule runs against it. */
module Ledger {
  import opened Clock

  datatype Option<T> = None | Some(value: T)

  /** One row of the appointment table. `date` is the stored instant in
      milliseconds; `canceledAt == None` is SQL `canceled_at IS NULL`. */
  datatype Appointment = Appointment(
    id: int,
    userId: int,
    providerId: int,
    date: int,
    canceledAt: Option<int>)

  /** A row that has not been canceled. */
  predicate Active(a: Appointment) {
    a.canceledAt.None?
  }

  /** The row matches `WHERE provider_id = providerId AND canceled_at IS NULL AND date = at`. */
  predicate Occupies(a: Appointment, providerId: int, at: int) {
    a.providerId == providerId && Active(a) && a.date == at
  }

  /** `Appointment.findOne` for an active row of `providerId` at exactly `at`:
      some such row (the query has no order; this model takes the first), or
      None when there is none. */
  function FindActive(rows: seq<Appointment>, providerId: int, at: int): (r: Option<Appointment>)
    ensures r.Some? <==> exists i :: 0 <= i < |rows| && Occupies(rows[i], providerId, at)
    ensures r.Some? ==> r.value in rows && Occupies(r.value, providerId, at)
  {
    if rows == [] then None
    else if Occupies(rows[0], providerId, at) then Some(rows[0])
    else
      var r := FindActive(rows[1..], providerId, at);
      assert forall i :: 1 <= i < |rows| ==> rows[i] == rows[1..][i - 1];
      r
  }

  /** A canceled row never makes `FindActive` succeed: if every row of the
      provider at that instant is canceled, the lookup finds nothing. */
  lemma CanceledRowsNeverBlock(rows: seq<Appointment>, providerId: int, at: int)
    requires forall i :: 0 <= i < |rows| && rows[i].providerId == providerId && rows[i].date == at
               ==> rows[i].canceledAt.Some?
    ensures FindActive(rows, providerId, at) == None
  {
  }

  /** Slot exclusivity on stored dates: no two active rows of one provider
      carry the same `date`. */
  predicate SlotExclusive(rows: seq<Appointment>) {
    forall i, j ::
      0 <= i < j < |rows| && Active(rows[i]) && Active(rows[j]) && rows[i].providerId == rows[j].providerId
      ==> rows[i].date != rows[j].date
  }

  /** Slot exclusivity on hours: no two active rows of one provider fall in the same hour. */
  predicate HourExclusive(rows: seq<Appointment>) {
    forall i, j ::
      0 <= i < j < |rows| && Active(rows[i]) && Active(rows[j]) && rows[i].providerId == rows[j].providerId
      ==> StartOfHour(rows[i].date) != StartOfHour(rows[j].date)
  }

  /** Every stored date lies on an hour boundary. */
  predicate AllOnTheHour(rows: seq<Appointment>) {
    forall i :: 0 <= i < |rows| ==> OnTheHour(rows[i].date)
  }

  /** When every stored date is on the hour, exclusivity of dates is exclusivity of hours. */
  lemma AlignedExclusiveByHour(rows: seq<Appointment>)
    requires AllOnTheHour(rows) && SlotExclusive(rows)
    ensures HourExclusive(rows)
  {
    forall i, j | 0 <= i < j < |rows| && Active(rows[i]) && Active(rows[j])
      && rows[i].providerId == rows[j].providerId
      ensures StartOfHour(rows[i].date) != StartOfHour(rows[j].date)
    {
      StartOfHourIdempotent(rows[i].date);
      StartOfHourIdempotent(rows[j].date);
    }
  }

  /** No two rows share an id. */
  predicate DistinctIds(rows: seq<Appointment>) {
    forall i, j :: 0 <= i < j < |rows| ==> rows[i].id != rows[j].id
  }

  /** Every id in the table is below `bound`. */
  predicate IdsBelow(rows: seq<Appointment>, bound: int) {
    forall i :: 0 <= i < |rows| ==> rows[i].id < bound
  }

  /** The largest id in the table, or 0 for an empty table. */
  function MaxId(rows: seq<Appointment>): (m: int)
    ensures IdsBelow(rows, m + 1)
    ensures rows != [] ==> exists i :: 0 <= i < |rows| && rows[i].id == m
  {
    if rows == [] then 0
    else
      var rest := MaxId(rows[..|rows| - 1]);
      var last := rows[|rows| - 1].id;
      assert forall i :: 0 <= i < |rows| - 1 ==> rows[i] == rows[..|rows| - 1][i];
      if |rows| == 1 || last >= rest then last else rest
  }
}
