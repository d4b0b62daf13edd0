/**
  The program's core run: build the two-day grid from the current instant,
  read the Sun's altitude at every grid point from the ephemeris, extract the
  observation windows, and choose which of the two messages to report.
 */
module Schedule {
  import opened DateTimes
  import TimeGrid
  import opened Observation

  /** Either the windows to observe during, or the message that the Sun never clears the horizon. */
  datatype Report = ObserveDuring(periods: seq<Period>) | NeverAboveHorizon

  /** The choice between the two messages: a non-empty list of windows, or none. */
  function Summarize(periods: seq<Period>): (r: Report)
    ensures r.NeverAboveHorizon? <==> periods == []
    ensures r.ObserveDuring? ==> r.periods == periods
  {
    if periods != [] then ObserveDuring(periods) else NeverAboveHorizon
  }

  /** The "never above" message is chosen exactly when no sample is above the horizon. */
  lemma SummaryNeverAboveIff(ss: seq<Sample>, horizon: real)
    ensures Summarize(Periods(ss, horizon)).NeverAboveHorizon?
      <==> forall k :: 0 <= k < |ss| ==> ss[k].alt <= horizon
  {
    PeriodsEmptyIff(ss, horizon);
  }

  /** The grid instants paired with the altitudes the ephemeris gives for them. */
  function SampleGrid(times: seq<int>, ephemeris: int -> real): (ss: seq<Sample>)
    ensures |ss| == |times|
    ensures forall k :: 0 <= k < |ss| ==> ss[k] == Sample(times[k], ephemeris(times[k]))
  {
    Zip(times, seq(|times|, k requires 0 <= k < |times| => ephemeris(times[k])))
  }

  /**
    One run of the program from the current instant `now`, with the
    ephemeris as a function from an instant to the Sun's altitude there: 288
    grid points ten minutes apart from 00:01 of today, the windows above the
    horizon among them, in ascending order and each a maximal run, and the
    message choice.
   */
  method PlanObservations(now: DateTime, ephemeris: int -> real, horizon: real)
    returns (times: seq<int>, periods: seq<Period>, report: Report)
    requires now.Valid()
    ensures times == TimeGrid.ObservationGrid(now) && |times| == 288
    ensures periods == Periods(SampleGrid(times, ephemeris), horizon)
    ensures forall j :: 0 <= j < |periods| ==> periods[j].start <= periods[j].end
    ensures forall j, j' :: 0 <= j < j' < |periods| ==> periods[j].end < periods[j'].start
    ensures report == Summarize(periods)
  {
    times := TimeGrid.ObservationGrid(now);
    var altitudes := seq(|times|, k requires 0 <= k < |times| => ephemeris(times[k]));
    periods := ExtractPeriods(times, altitudes, horizon);
    var samples := SampleGrid(times, ephemeris);
    assert TimesIncreasing(samples);
    PeriodsOrdered(samples, horizon);
    report := Summarize(periods);
  }
}
