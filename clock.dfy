/** Time as integer milliseconds since the epoch, and the truncation of a
    timestamp to the start of its hour (date-fns `startOfHour`), assuming the
    server's time zone is offset from UTC by a whole number of hours. */
module Clock {

  /** Milliseconds in one hour. */
  const HourMs: int := 3600000

  /** `t` lies exactly on an hour boundary (minutes, seconds and milliseconds are zero). */
  predicate OnTheHour(t: int) {
    t % HourMs == 0
  }

  /** The start of the hour containing `t`: at or before `t`, less than one
      hour before it, and itself on an hour boundary. Dafny's `%` is
      Euclidean, so for a negative `t` this still rounds towards the past. */
  function StartOfHour(t: int): (h: int)
    ensures h <= t < h + HourMs
    ensures OnTheHour(h)
  {
    t - t % HourMs
  }

  /** Two boundaries no more than an hour apart, one at or before the other, are equal or an hour apart. */
  lemma {:induction false} BoundariesApart(m: int, h: int)
    requires OnTheHour(m) && OnTheHour(h) && h < m
    ensures h + HourMs <= m
  {
    var p, q := m / HourMs, h / HourMs;
    assert m == HourMs * p;
    assert h == HourMs * q;
    assert q < p;
    assert HourMs * (p - q) >= HourMs * 1;
  }

  /** `StartOfHour(t)` is the latest hour boundary at or before `t`. */
  lemma StartOfHourGreatest(t: int, m: int)
    requires OnTheHour(m) && m <= t
    ensures m <= StartOfHour(t)
  {
    var h := StartOfHour(t);
    if h < m {
      BoundariesApart(m, h);
    }
  }

  /** The hour boundary `h` is the start of every instant of the hour that follows it. */
  lemma StartOfHourUnique(t: int, h: int)
    requires OnTheHour(h) && h <= t < h + HourMs
    ensures StartOfHour(t) == h
  {
    var s := StartOfHour(t);
    StartOfHourGreatest(t, h);
    if h < s {
      BoundariesApart(s, h);
    }
  }

  /** Truncating twice is truncating once; an instant on the hour is left unchanged. */
  lemma StartOfHourIdempotent(t: int)
    ensures StartOfHour(StartOfHour(t)) == StartOfHour(t)
    ensures OnTheHour(t) ==> StartOfHour(t) == t
  {
    StartOfHourUnique(StartOfHour(t), StartOfHour(t));
    if OnTheHour(t) {
      StartOfHourUnique(t, t);
    }
  }

  /** Instants in the same hour (for example 13:47 and 13:59) truncate to the same boundary. */
  lemma SameHour(s: int, t: int)
    requires StartOfHour(s) <= t < StartOfHour(s) + HourMs
    ensures StartOfHour(t) == StartOfHour(s)
  {
    StartOfHourUnique(t, StartOfHour(s));
  }

  /** Truncation preserves the order of instants. */
  lemma StartOfHourMonotone(s: int, t: int)
    requires s <= t
    ensures StartOfHour(s) <= StartOfHour(t)
  {
    StartOfHourGreatest(t, StartOfHour(s));
  }

  /** The first hour boundary at or after `now`. */
  function FirstBoundaryFrom(now: int): (b: int)
    ensures OnTheHour(b) && now <= b < now + HourMs
  {
    StartOfHour(now - 1) + HourMs
  }

  /** The truncated hour of `d` is strictly before `now` exactly when `d`
      itself is before the first hour boundary at or after `now`: every
      instant of an hour that has already begun counts as past. */
  lemma HourBeforeIff(d: int, now: int)
    ensures StartOfHour(d) < now <==> d < FirstBoundaryFrom(now)
  {
    var b := FirstBoundaryFrom(now);
    var h := StartOfHour(d);
    if h < now {
      // h is a boundary at or before now - 1, so it is at most StartOfHour(now - 1)
      StartOfHourGreatest(now - 1, h);
    } else {
      // h is a boundary at or after now, so it is at least b
      if h < b {
        BoundariesApart(b, h);
      }
    }
  }
}
