/** The wrap helper `handle_day_change` (Env.py:226-231): an hour count that
    may run past the end of the day is turned into an hour of the day and a
    day of the week. */
module TimeWrap {
  import opened CabTypes

  /** Python's `%` and `//` floor; with the positive divisors T and D that is
      the same as Dafny's Euclidean `%` and `/`, for negative counts too. */
  function HandleDayChange(hour: int, day: int): (r: (int, int))
    ensures 0 <= r.0 < T && 0 <= r.1 < D
    ensures hour - r.0 == T * (hour / T)
  {
    (hour % T, (day + hour / T) % D)
  }

  /** The result is determined by any split of `hour` into whole days `q` and
      a remainder `h` inside one day: the hour of the day is `h` and the day
      of the week moves on by `q`. */
  lemma WrapBySplit(hour: int, day: int, q: int, h: int)
    requires 0 <= h < T && hour == q * T + h
    ensures HandleDayChange(hour, day) == (h, (day + q) % D)
  {
    assert hour / T == q && hour % T == h by {
      DivModUnique(hour, q, h);
    }
  }

  /** Hours inside one day and days inside one week are left as they are. */
  lemma WrapInRange(hour: int, day: int)
    requires 0 <= hour < T && 0 <= day < D
    ensures HandleDayChange(hour, day) == (hour, day)
  {
    WrapBySplit(hour, day, 0, hour);
  }

  /** Wrapping twice is wrapping once: advancing a wrapped time by `n` more
      hours and wrapping again gives the same hour and day as wrapping the
      total `hour + n` directly. */
  lemma WrapCompose(hour: int, day: int, n: int)
    ensures var (h1, d1) := HandleDayChange(hour, day);
            HandleDayChange(h1 + n, d1) == HandleDayChange(hour + n, day)
  {
    var q1, h1 := hour / T, hour % T;
    var q2, h2 := (h1 + n) / T, (h1 + n) % T;
    var d1 := (day + q1) % D;
    WrapBySplit(hour, day, q1, h1);
    WrapBySplit(h1 + n, d1, q2, h2);
    WrapBySplit(hour + n, day, q1 + q2, h2);
    ModAddLeft(day + q1, q2);
  }

  /** An hour count spanning several weeks: 500 hours is 20 days and 20 hours. */
  lemma WrapSeveralWeeks(day: int)
    requires 0 <= day < D
    ensures HandleDayChange(500, day) == (20, (day + 6) % D)
  {
    WrapBySplit(500, day, 20, 20);
    ModAddLeft(day + 6, 14);
  }

  lemma DivModUnique(a: int, q: int, r: int)
    requires 0 <= r < T && a == q * T + r
    ensures a / T == q && a % T == r
  {
  }

  lemma ModAddLeft(a: int, b: int)
    ensures ((a % D) + b) % D == (a + b) % D
  {
  }
}
