/**
  The two rounding helpers: snapping an instant to a ten-minute boundary
  (`minutes_rounded`) and to one minute past midnight of its day
  (`day_rounded`).
 */
module Rounding {
  import opened DateTimes

  const MicrosPerTenMinutes: int := 600_000_000
  const MicrosPerFiveMinutes: int := 300_000_000

  /** The instant with its seconds and microseconds dropped. */
  function TruncatedToMinute(dt: DateTime): int
  {
    ToMicros(dt) - dt.second * MicrosPerSecond - dt.micro
  }

  /**
    The top of the instant's hour, as `dt.replace(minute=0, second=0, microsecond=0)`:
    the latest whole hour at or before the instant.
   */
  function TopOfHour(dt: DateTime): (r: DateTime)
    ensures dt.Valid() ==> r.Valid()
    ensures ToMicros(r) % MicrosPerHour == 0
    ensures dt.Valid() ==> ToMicros(dt) - MicrosPerHour < ToMicros(r) <= ToMicros(dt)
  {
    DivModUnique(dt.day * MicrosPerDay + dt.hour * MicrosPerHour, MicrosPerHour, dt.day * 24 + dt.hour, 0);
    dt.(minute := 0, second := 0, micro := 0)
  }

  /**
    `minutes_rounded`: the lower multiple of ten minutes, plus ten more when the
    minute's last digit is 5 or more, added to the top of the hour as a
    `timedelta`, so that minutes 55 to 59 carry into the next hour (and, at
    23:55 or later, into the next day).
   */
  function MinutesRounded(dt: DateTime): (r: DateTime)
    requires dt.Valid()
    ensures r.Valid()
  {
    var lower := (dt.minute / 10) * 10;
    var newMinute := if dt.minute % 10 >= 5 then lower + 10 else lower;
    PlusMinutes(TopOfHour(dt), newMinute)
  }

  /** Below minute 55 the result stays in the same hour, on the nearest ten-minute mark, half up. */
  lemma MinutesRoundedSameHour(dt: DateTime)
    requires dt.Valid() && dt.minute < 55
    ensures var r := MinutesRounded(dt);
      && r.day == dt.day && r.hour == dt.hour
      && r.minute % 10 == 0 && r.second == 0 && r.micro == 0
      && (dt.minute % 10 < 5 ==> r.minute == dt.minute - dt.minute % 10)
      && (dt.minute % 10 >= 5 ==> r.minute == dt.minute - dt.minute % 10 + 10)
  {
    var lower := (dt.minute / 10) * 10;
    var newMinute := if dt.minute % 10 >= 5 then lower + 10 else lower;
    var r := MinutesRounded(dt);
    assert ToMicros(r) == ToMicros(TopOfHour(dt)) + newMinute * MicrosPerMinute;
    var expected := DateTime(dt.day, dt.hour, newMinute, 0, 0);
    assert ToMicros(expected) == ToMicros(TopOfHour(dt)) + newMinute * MicrosPerMinute;
    SameInstant(r, expected);
  }

  /** From minute 55 on the result is the top of the next hour, on the next day after 23:55. */
  lemma MinutesRoundedCarry(dt: DateTime)
    requires dt.Valid() && dt.minute >= 55
    ensures var r := MinutesRounded(dt);
      && r.minute == 0 && r.second == 0 && r.micro == 0
      && ToMicros(r) == ToMicros(TopOfHour(dt)) + MicrosPerHour
      && (dt.hour < 23 ==> r.day == dt.day && r.hour == dt.hour + 1)
      && (dt.hour == 23 ==> r.day == dt.day + 1 && r.hour == 0)
  {
    assert dt.minute / 10 == 5 && dt.minute % 10 >= 5;
    var r := MinutesRounded(dt);
    assert ToMicros(r) == ToMicros(TopOfHour(dt)) + MicrosPerHour;
    if dt.hour < 23 {
      SameInstant(r, DateTime(dt.day, dt.hour + 1, 0, 0, 0));
    } else {
      SameInstant(r, DateTime(dt.day + 1, 0, 0, 0, 0));
    }
  }

  /** Every whole day and every whole hour is a whole number of ten-minute steps. */
  lemma TopOfHourOnBoundary(dt: DateTime, k: int)
    requires 0 <= k <= 6
    ensures (ToMicros(TopOfHour(dt)) + k * MicrosPerTenMinutes) % MicrosPerTenMinutes == 0
  {
    var q := dt.day * 144 + dt.hour * 6 + k;
    DivModUnique(ToMicros(TopOfHour(dt)) + k * MicrosPerTenMinutes, MicrosPerTenMinutes, q, 0);
  }

  /**
    The result lies on a ten-minute boundary, 0 to 60 minutes after the top of
    the input's hour, and is the boundary nearest the input, both as given and
    truncated to the minute, a tie at five minutes going up: it is above the
    instant by at most five minutes and below it by less than five.
   */
  lemma MinutesRoundedNearest(dt: DateTime)
    requires dt.Valid()
    ensures var r := MinutesRounded(dt);
      var offset := ToMicros(r) - ToMicros(TopOfHour(dt));
      && ToMicros(r) % MicrosPerTenMinutes == 0
      && 0 <= offset <= MicrosPerHour && offset % MicrosPerTenMinutes == 0
      && TruncatedToMinute(dt) - MicrosPerFiveMinutes < ToMicros(r) <= TruncatedToMinute(dt) + MicrosPerFiveMinutes
      && ToMicros(dt) - MicrosPerFiveMinutes < ToMicros(r) <= ToMicros(dt) + MicrosPerFiveMinutes
      && (dt.minute % 10 < 5 <==> ToMicros(r) <= TruncatedToMinute(dt))
  {
    var k := dt.minute / 10 + (if dt.minute % 10 >= 5 then 1 else 0);
    var r := MinutesRounded(dt);
    assert ToMicros(r) == ToMicros(TopOfHour(dt)) + k * MicrosPerTenMinutes;
    assert ToMicros(r) - TruncatedToMinute(dt) == (k * 10 - dt.minute) * MicrosPerMinute;
    TopOfHourOnBoundary(dt, k);
    DivModUnique(k * MicrosPerTenMinutes, MicrosPerTenMinutes, k, 0);
  }

  /** Two ten-minute boundaries closer than ten minutes apart are the same instant. */
  lemma BoundariesApart(b1: int, b2: int)
    requires b1 % MicrosPerTenMinutes == 0 && b2 % MicrosPerTenMinutes == 0
    requires b1 <= b2 < b1 + MicrosPerTenMinutes
    ensures b1 == b2
  {
    var q1, q2 := b1 / MicrosPerTenMinutes, b2 / MicrosPerTenMinutes;
    assert b1 == q1 * MicrosPerTenMinutes && b2 == q2 * MicrosPerTenMinutes;
    if q1 < q2 {
      MulAtLeast(q2 - q1, MicrosPerTenMinutes);
      assert false;
    } else if q2 < q1 {
      assert false;
    }
  }

  /** No other ten-minute boundary lies within five minutes of the input (ties up): the result is the unique nearest one. */
  lemma MinutesRoundedUnique(dt: DateTime, b: int)
    requires dt.Valid()
    requires b % MicrosPerTenMinutes == 0
    requires ToMicros(dt) - MicrosPerFiveMinutes < b <= ToMicros(dt) + MicrosPerFiveMinutes
    ensures b == ToMicros(MinutesRounded(dt))
  {
    var r := ToMicros(MinutesRounded(dt));
    MinutesRoundedNearest(dt);
    if b <= r {
      BoundariesApart(b, r);
    } else {
      BoundariesApart(r, b);
    }
  }

  /** Rounding an already rounded instant changes nothing. */
  lemma MinutesRoundedIdempotent(dt: DateTime)
    requires dt.Valid()
    ensures MinutesRounded(MinutesRounded(dt)) == MinutesRounded(dt)
  {
    var r := MinutesRounded(dt);
    if dt.minute < 55 {
      MinutesRoundedSameHour(dt);
    } else {
      MinutesRoundedCarry(dt);
    }
    assert r.minute % 10 == 0;
    MinutesRoundedSameHour(r);
    FromToMicros(r);
  }

  /** `day_rounded`: midnight of the instant's day plus a one-minute `timedelta`. */
  function DayRounded(dt: DateTime): (r: DateTime)
    requires dt.Valid()
    ensures r.Valid()
    ensures r.day == dt.day && r.hour == 0 && r.minute == 1 && r.second == 0 && r.micro == 0
  {
    var midnight := dt.(hour := 0, minute := 0, second := 0, micro := 0);
    FromToMicros(DateTime(dt.day, 0, 1, 0, 0));
    PlusMinutes(midnight, 1)
  }

  /** The result is one minute into the input's day, counted on the linear time line. */
  lemma DayRoundedSameDay(dt: DateTime)
    requires dt.Valid()
    ensures ToMicros(DayRounded(dt)) / MicrosPerDay == ToMicros(dt) / MicrosPerDay
    ensures ToMicros(DayRounded(dt)) % MicrosPerDay == MicrosPerMinute
  {
    FromToMicros(dt);
    DivModUnique(ToMicros(DayRounded(dt)), MicrosPerDay, dt.day, MicrosPerMinute);
  }

  /** Snapping twice is snapping once. */
  lemma DayRoundedIdempotent(dt: DateTime)
    requires dt.Valid()
    ensures DayRounded(DayRounded(dt)) == DayRounded(dt)
  {
  }
}
