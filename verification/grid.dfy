/**
  The sampling grid: `[start + i * step for i in range(int(span / step))]`,
  with instants as microsecond counts and `span`, `step` as microsecond
  durations.
 */
module TimeGrid {
  import opened DateTimes
  import Rounding
  import opened Wrappers

  /** `int(a / b)` on a true quotient: the quotient truncated toward zero. */
  function TruncatedQuotient(a: int, b: int): (q: int)
    requires b != 0
    ensures a >= 0 && b > 0 ==> q == a / b
    ensures (a >= 0) == (b > 0) || a == 0 ==> q >= 0
    ensures (a > 0 && b < 0) || (a < 0 && b > 0) ==> q <= 0
  {
    var magnitude := (if a < 0 then -a else a) / (if b < 0 then -b else b);
    if (a < 0) != (b < 0) then -magnitude else magnitude
  }

  lemma NegatedProduct(x: int, y: int)
    ensures x * -y == -(x * y) && -x * y == -(x * y)
  {
  }

  /**
    The truncated quotient leaves a remainder `a - q * b` that is zero or has
    the sign of `a`, and is smaller than `b` in magnitude: the quotient is
    rounded toward zero, not toward minus infinity.
   */
  lemma TruncatedTowardZero(a: int, b: int)
    requires b != 0
    ensures a - TruncatedQuotient(a, b) * b == 0 || (a - TruncatedQuotient(a, b) * b > 0) == (a > 0)
    ensures -(if b < 0 then -b else b) < a - TruncatedQuotient(a, b) * b < (if b < 0 then -b else b)
  {
    if a >= 0 && b > 0 {
      var m := a / b;
      assert TruncatedQuotient(a, b) == m;
      assert a == m * b + a % b;
    } else if a < 0 && b < 0 {
      var m := (-a) / (-b);
      assert TruncatedQuotient(a, b) == m;
      assert -a == m * -b + (-a) % (-b);
      NegatedProduct(m, b);
    } else if a >= 0 {
      var m := a / (-b);
      assert TruncatedQuotient(a, b) == -m;
      assert a == m * -b + a % (-b);
      NegatedProduct(m, b);
    } else {
      var m := (-a) / b;
      assert TruncatedQuotient(a, b) == -m;
      assert -a == m * b + (-a) % b;
      NegatedProduct(m, b);
    }
  }

  /**
    The grid from `start` over `span` in steps of `step`; `None` where the
    division raises ZeroDivisionError (a zero step). `range` of a count that is
    zero or negative is empty.
   */
  function Grid(start: int, span: int, step: int): (g: Option<seq<int>>)
    ensures g.None? <==> step == 0
  {
    if step == 0 then None
    else
      var count := TruncatedQuotient(span, step);
      Some(seq(if count > 0 then count else 0, i => start + i * step))
  }

  lemma MulMonotone(a: int, b: int, c: int)
    requires a <= b && c >= 0
    ensures a * c <= b * c
  {
    assert b * c - a * c == (b - a) * c;
  }

  /**
    With a positive step and a span that is not negative the grid has
    floor(span / step) points; point i is `start + i * step`; the points
    increase strictly, lie in [start, start + span), and the next point would
    not: the grid reaches as far into the span as the step allows.
   */
  lemma {:induction false} GridShape(start: int, span: int, step: int)
    requires step > 0 && span >= 0
    ensures Grid(start, span, step).Some?
    ensures var g := Grid(start, span, step).value;
      && |g| == span / step
      && (forall i :: 0 <= i < |g| ==> g[i] == start + i * step)
      && (forall i :: 0 <= i < |g| ==> start <= g[i] < start + span)
      && (forall i, j :: 0 <= i < j < |g| ==> g[i] < g[j])
      && start + |g| * step > start + span - step
  {
    var g := Grid(start, span, step).value;
    var n := span / step;
    assert |g| == n;
    assert span == n * step + span % step;
    forall i | 0 <= i < |g|
      ensures start <= g[i] < start + span
    {
      MulMonotone(0, i, step);
      MulMonotone(i, n - 1, step);
      assert (n - 1) * step == n * step - step;
    }
    forall i, j | 0 <= i < j < |g|
      ensures g[i] < g[j]
    {
      MulMonotone(i + 1, j, step);
      assert (i + 1) * step == i * step + step;
    }
  }

  /**
    A zero span, a step longer than the span in the span's direction, or a step
    against the span's direction gives no points.
   */
  lemma GridDegenerate(start: int, span: int, step: int)
    requires step != 0
    requires || span == 0
             || (0 < span < step) || (step < span < 0)
             || (span > 0 && step < 0) || (span < 0 && step > 0)
    ensures Grid(start, span, step) == Some([])
  {
    if 0 < span < step {
      DivModUnique(span, step, 0, span);
    } else if step < span < 0 {
      DivModUnique(-span, -step, 0, -span);
    }
    assert |Grid(start, span, step).value| == 0;
  }

  /**
    With a negative step and a span that is not positive the grid runs
    backwards: it has floor(|span| / |step|) points, point i is
    `start + i * step`, the points decrease strictly and lie in
    (start + span, start].
   */
  lemma {:induction false} GridShapeDescending(start: int, span: int, step: int)
    requires step < 0 && span <= 0
    ensures Grid(start, span, step).Some?
    ensures var g := Grid(start, span, step).value;
      && |g| == (-span) / (-step)
      && (forall i :: 0 <= i < |g| ==> g[i] == start + i * step)
      && (forall i :: 0 <= i < |g| ==> start + span < g[i] <= start)
      && (forall i, j :: 0 <= i < j < |g| ==> g[i] > g[j])
  {
    var g := Grid(start, span, step).value;
    GridShape(-start, -span, -step);
    var mirror := Grid(-start, -span, -step).value;
    assert |g| == |mirror|;
    forall i | 0 <= i < |g| ensures g[i] == -mirror[i] {
      assert g[i] == start + i * step;
      assert mirror[i] == -start + i * -step;
    }
  }

  const TwoDays: int := 2 * MicrosPerDay
  const TenMinutes: int := 10 * MicrosPerMinute

  /** The program's grid: two days from one minute past midnight of today, every ten minutes. */
  function ObservationGrid(now: DateTime): (g: seq<int>)
    requires now.Valid()
    ensures |g| == 288
    ensures g[0] == ToMicros(DateTime(now.day, 0, 1, 0, 0))
    ensures forall i, j :: 0 <= i < j < |g| ==> g[i] < g[j]
    ensures forall i :: 0 <= i < |g| ==> g[i] == g[0] + i * TenMinutes
    ensures g[287] == ToMicros(DateTime(now.day + 1, 23, 51, 0, 0))
  {
    var start := ToMicros(Rounding.DayRounded(now));
    GridShape(start, TwoDays, TenMinutes);
    DivModUnique(TwoDays, TenMinutes, 288, 0);
    Grid(start, TwoDays, TenMinutes).value
  }
}
