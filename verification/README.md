# Solar observation windows — a Dafny model

`solar_JM.py` decides when the Sun is high enough over the I-LOFAR station
(IE613) to observe it. It starts at one minute past midnight UTC of the
current day and builds a grid of instants ten minutes apart that spans two
days. It asks astropy for the Sun's altitude at each grid instant, then scans
the samples in time order. Each maximal run of samples strictly above a
horizon angle (30 degrees by default) becomes one observation window, from
the run's first timestamp to its last. It prints the windows, or a message
that the Sun never clears the horizon. The file also defines a helper that
rounds an instant to the nearest ten minutes (`minutes_rounded`); the program
itself never calls it.

The model has six modules:

- `DateTimes` (`datetimes.dfy`): a UTC `datetime` as a day number plus
  time-of-day fields, and the same instant as a microsecond count.
  Adding a `timedelta` is arithmetic on that count.
- `Rounding` (`rounding.dfy`): `minutes_rounded` and `day_rounded`.
- `TimeGrid` (`grid.dfy`): the list comprehension that builds the grid, with
  `int(span / step)` read as truncation toward zero and a zero step
  (ZeroDivisionError) as `None`. Also the program's own 288-point grid.
- `Observation` (`observation.dfy`): the scan as a method with a loop over
  the timestamps zipped with the altitudes. It is proved
  equal to a separate recursive definition of the runs above the horizon.
  The window properties are proved about that definition.
- `Schedule` (`schedule.dfy`): one run of `main`, from the current instant
  to the chosen message. The ephemeris is a parameter.
- `Wrappers` (`wrappers.dfy`): the shared `Option` type.

Two edge cases follow the code exactly:

- **Strict comparison:** the scan tests `alt > horizon`, so a sample exactly
  at the horizon is never in a window (`Observation.NotAboveClosesRun`,
  `Observation.ScenarioBoundarySplits`).
- **Grid errors:** only a zero step raises (ZeroDivisionError). A zero or
  negative count gives an empty `range`, so such a grid is empty and no
  error is raised (`TimeGrid.Grid`, `TimeGrid.GridDegenerate`).

## Model

| member | source | states |
|---|---|---|
| DateTimes.PlusMinutes | solar_JM.py:24 | adding `timedelta(minutes=m)` moves the instant exactly m minutes along the time line and gives well-formed fields |
| DateTimes.FromToMicros | solar_JM.py:24 | a well-formed date and time survives conversion to the linear time line and back, so the fields after a `timedelta` addition are determined |
| Rounding.TopOfHour | solar_JM.py:24 | `replace(minute=0, second=0, microsecond=0)` gives a well-formed whole hour at or before the instant and less than an hour before it |
| Rounding.MinutesRounded | solar_JM.py:20-24 | the result is a well-formed date and time; its fields are fixed by MinutesRoundedSameHour and MinutesRoundedCarry |
| Rounding.MinutesRoundedSameHour | solar_JM.py:20-24 | below minute 55 the result is in the same day and hour, at a minute that is a multiple of ten, seconds and microseconds zero; it rounds down when the minute's last digit is below 5 and up by the rest of ten otherwise |
| Rounding.MinutesRoundedCarry | solar_JM.py:21-24 | from minute 55 on the result is the top of the next hour, one hour after the top of the input's hour, carrying into the next day from 23:55 |
| Rounding.MinutesRoundedNearest | solar_JM.py:20-24 | the result is on a ten-minute boundary, 0 to 60 minutes after the top of the input's hour, above the input by at most five minutes and below it by less than five (ties go up), and it rounds down exactly when the minute's last digit is below 5 |
| Rounding.MinutesRoundedUnique | solar_JM.py:19-24 | any ten-minute boundary within that half-open window around the input is the result: it is the one nearest boundary |
| Rounding.MinutesRoundedIdempotent | solar_JM.py:20-24 | rounding a rounded instant returns it unchanged |
| Rounding.DayRounded | solar_JM.py:26-28 | the result is well formed, on the same day, at 00:01:00.000000 |
| Rounding.DayRoundedSameDay | solar_JM.py:26-28 | on the linear time line the result is in the input's day, exactly one minute after its midnight |
| Rounding.DayRoundedIdempotent | solar_JM.py:26-28 | snapping a snapped instant returns it unchanged |
| TimeGrid.TruncatedQuotient | solar_JM.py:45 | `int()` of a true quotient equals floor division when both operands are non-negative, and its sign follows the operands' signs |
| TimeGrid.TruncatedTowardZero | solar_JM.py:45 | `int()` of a true quotient truncates toward zero: the remainder a − q·b is zero or has the sign of a and is smaller than \|b\| in magnitude |
| TimeGrid.Grid | solar_JM.py:45 | the comprehension fails (ZeroDivisionError) exactly when the step is zero |
| TimeGrid.GridShape | solar_JM.py:45 | with a positive step and a non-negative span there are span/step points; point i is start + i·step; the points increase strictly and lie in [start, start + span); the next point would not be before start + span − step |
| TimeGrid.GridShapeDescending | solar_JM.py:45 | with a negative step and a span that is not positive there are \|span\|/\|step\| points; point i is start + i·step; the points decrease strictly and lie in (start + span, start] |
| TimeGrid.GridDegenerate | solar_JM.py:45 | a zero span, a span shorter than the step in the same direction, or a span against the step's direction gives an empty grid and no error |
| TimeGrid.ObservationGrid | solar_JM.py:42-45 | the program's grid has 288 points, the first at 00:01 of today and the last at 23:51 of tomorrow, strictly increasing and exactly ten minutes apart |
| Observation.Zip | solar_JM.py:62 | `zip` pairs the i-th timestamp with the i-th altitude, up to the length of the shorter list |
| Observation.RunEnd | solar_JM.py:63-66 | from a sample above the horizon the run continues while samples stay above, and ends at the last sample or before one that is not above |
| Observation.ScanSamples | solar_JM.py:57-74 | the loop and the final flush emit exactly the windows of the runs above the horizon, in scan order, each from the run's first timestamp to its last |
| Observation.ExtractPeriods | solar_JM.py:57-74 | the windows of `zip(times, altitudes)`: exactly those of the zipped samples, as the scan over them emits |
| Observation.RunsAbove | solar_JM.py:63-66 | every sample of every run found is strictly above the horizon |
| Observation.RunsEndMaximal | solar_JM.py:67-74 | every run ends at the last sample or just before a sample that is not above the horizon |
| Observation.RunsStartMaximal | solar_JM.py:64-65 | every run starts at the first sample or just after a sample that is not above the horizon |
| Observation.RunsSeparated | solar_JM.py:67-70 | the runs are in order, and at least one sample that is not above separates consecutive runs |
| Observation.RunsCover | solar_JM.py:62-66 | every sample above the horizon lies in some run |
| Observation.RunsEmptyIff | solar_JM.py:58-59 | no run is found exactly when no sample is above the horizon |
| Observation.RunsCount | solar_JM.py:64-65 | the runs are as many as the samples that open one |
| Observation.StampAt | solar_JM.py:65-66 | window j opens at the timestamp of run j's first sample and closes at that of its last |
| Observation.PeriodsAreMaximalRuns | solar_JM.py:62-74 | every window opens and closes at actual sample timestamps, and those samples bound a maximal run strictly above the horizon |
| Observation.PeriodsOrdered | solar_JM.py:58-74 | on increasing timestamps every window has start ≤ end, the windows are in ascending order, and no two overlap or touch |
| Observation.PeriodsCount | solar_JM.py:58-74 | there are exactly as many windows as samples above the horizon whose predecessor, if any, is not |
| Observation.PeriodsCoverAbove | solar_JM.py:62-66 | on increasing timestamps every sample above the horizon lies inside some window |
| Observation.NotAboveClosesRun | solar_JM.py:63-70 | a sample at or below the horizon (including one exactly at it) lies in no window; if the sample before it was above, a window ends at that earlier sample |
| Observation.PeriodsEmptyIff | solar_JM.py:58-74 | there is no window exactly when no sample is above the horizon, including when there are no samples |
| Observation.PeriodsAllAbove | solar_JM.py:72-74 | when every sample is above the horizon the final flush emits one window, from the first timestamp to the last |
| Observation.ScenarioSingleWindow | solar_JM.py:62-74 | altitudes 10, 40, 50, 20 against a horizon of 30 give one window, from the second timestamp to the third |
| Observation.ScenarioBoundarySplits | solar_JM.py:63-70 | altitudes 40, 30, 50 against a horizon of 30 give two one-sample windows: the sample at exactly 30 splits them |
| Schedule.Summarize | solar_JM.py:77-82 | the "does not rise above" message is chosen exactly when there is no window; otherwise the windows are reported unchanged |
| Schedule.SummaryNeverAboveIff | solar_JM.py:77-82 | the "does not rise above" message is chosen exactly when no grid sample is above the horizon |
| Schedule.SampleGrid | solar_JM.py:48-62 | each grid instant is paired with the altitude the ephemeris gives at that instant |
| Schedule.PlanObservations | solar_JM.py:42-82 | one run gives the 288-point grid from 00:01 today, the windows of its samples above the horizon in ascending order and disjoint, and the message chosen from them |

## Left out

- The `sun_flare_prob` subprocess started and printed at import time (lines 15-17): it is external I/O unrelated to the windows.
- The astropy ephemeris (site location, `get_sun`, the AltAz transform; lines 32-35 and 48-55): the Sun's altitude at an instant is the opaque function parameter `ephemeris` of `Schedule.PlanObservations`.
- `datetime.now(timezone.utc)` (line 42): the current instant is the parameter `now`.
- Formatting with `strftime` and printing (lines 77-82): only the choice between the two messages and the windows it carries are modelled.
- Plotting with matplotlib (lines 85-96) and argument parsing with argparse (lines 99-108): user-interface code outside the computation; the horizon is a parameter.
- Floating point and astropy units: altitudes and the horizon are exact reals, and `alt > horizon * u.deg` is a comparison of reals.
- The calendar: a date is a day number, so month lengths, leap years and the year range 1 to 9999 of Python's `datetime` (OverflowError at its ends) are not modelled.
- `time.datetime` conversion of astropy `Time` values back to `datetime` (lines 65-66) is taken to return the instant the grid supplied.
- TimeGrid.Grid: Python divides two `timedelta` values into a float rounded from the exact ratio of their microsecond counts. The model truncates the exact ratio. It differs wherever the float nearest the exact ratio truncates to another integer: a ratio just below an integer that rounds up to it, and any ratio of 2^53 or more, where the float cannot hold every integer and rounding may go either way (a span of 2^53 + 1 microseconds with a 1-microsecond step gives 2^53 points in Python and 2^53 + 1 in the model). This cannot happen for the program's own two-day span and ten-minute step: 172 800 000 000 / 600 000 000 = 288 is exact.
