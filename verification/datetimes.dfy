/**
  UTC instants as the program sees them: a Python `datetime` in the UTC zone,
  taken apart into a day number and a time of day, and the same instant as a
  count of microseconds since the start of day 0. Adding a `timedelta` moves
  the microsecond count; replacing a field builds a new `DateTime` value.
 */
module DateTimes {

  const MicrosPerSecond: int := 1_000_000
  const MicrosPerMinute: int := 60_000_000
  const MicrosPerHour: int := 3_600_000_000
  const MicrosPerDay: int := 86_400_000_000

  /** A UTC date and time; `day` numbers the calendar day. */
  datatype DateTime = DateTime(day: int, hour: int, minute: int, second: int, micro: int)
  {
    /** The ranges every Python `datetime` keeps its time-of-day fields in. */
    predicate Valid()
    {
      && 0 <= hour < 24
      && 0 <= minute < 60
      && 0 <= second < 60
      && 0 <= micro < MicrosPerSecond
    }
  }

  /** The instant as microseconds elapsed since 00:00 of day 0. */
  function ToMicros(dt: DateTime): int
  {
    dt.day * MicrosPerDay + dt.hour * MicrosPerHour + dt.minute * MicrosPerMinute
      + dt.second * MicrosPerSecond + dt.micro
  }

  /** Division with remainder, pinned down by its defining equation. */
  lemma DivModUnique(t: int, d: int, q: int, r: int)
    requires d > 0 && 0 <= r < d && t == q * d + r
    ensures t / d == q && t % d == r
  {
    var q', r' := t / d, t % d;
    assert t == q' * d + r' && 0 <= r' < d;
    if q' < q {
      assert (q - q') * d >= d by { MulAtLeast(q - q', d); }
      assert false;
    } else if q < q' {
      assert (q' - q) * d >= d by { MulAtLeast(q' - q, d); }
      assert false;
    }
  }

  lemma MulAtLeast(k: int, d: int)
    requires k >= 1 && d > 0
    ensures k * d >= d
  {
    assert k * d == (k - 1) * d + d;
    assert (k - 1) * d >= 0;
  }

  /** The calendar fields of the instant `t` microseconds after 00:00 of day 0. */
  function FromMicros(t: int): (dt: DateTime)
    ensures dt.Valid() && ToMicros(dt) == t
  {
    var inDay := t % MicrosPerDay;
    var inHour := inDay % MicrosPerHour;
    var inMinute := inHour % MicrosPerMinute;
    DateTime(t / MicrosPerDay, inDay / MicrosPerHour, inHour / MicrosPerMinute,
             inMinute / MicrosPerSecond, inMinute % MicrosPerSecond)
  }

  /** Taking a well-formed date and time to microseconds and back loses nothing. */
  lemma FromToMicros(dt: DateTime)
    requires dt.Valid()
    ensures FromMicros(ToMicros(dt)) == dt
  {
    var t := ToMicros(dt);
    var inMinute := dt.second * MicrosPerSecond + dt.micro;
    var inHour := dt.minute * MicrosPerMinute + inMinute;
    var inDay := dt.hour * MicrosPerHour + inHour;
    DivModUnique(t, MicrosPerDay, dt.day, inDay);
    DivModUnique(inDay, MicrosPerHour, dt.hour, inHour);
    DivModUnique(inHour, MicrosPerMinute, dt.minute, inMinute);
    DivModUnique(inMinute, MicrosPerSecond, dt.second, dt.micro);
  }

  /** Two well-formed date-times at the same instant are the same date-time. */
  lemma SameInstant(a: DateTime, b: DateTime)
    requires a.Valid() && b.Valid() && ToMicros(a) == ToMicros(b)
    ensures a == b
  {
    FromToMicros(a);
    FromToMicros(b);
  }

  /** `dt + timedelta(minutes=m)`. */
  function PlusMinutes(dt: DateTime, m: int): (r: DateTime)
    ensures r.Valid() && ToMicros(r) == ToMicros(dt) + m * MicrosPerMinute
  {
    FromMicros(ToMicros(dt) + m * MicrosPerMinute)
  }
}
