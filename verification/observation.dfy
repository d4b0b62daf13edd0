/**
  Observation windows: the maximal runs of consecutive samples whose solar
  altitude is strictly above the horizon, each reported as the pair of sample
  timestamps that open and close it.

  `Runs` defines the runs independently of the scan: it skips samples at or
  below the horizon and, at a sample above it, jumps straight to the run's last
  sample. `ScanSamples` is the program's single left-to-right scan with its
  open/closed state and the flush after the loop, proved to produce exactly
  the runs of `Runs`; `ExtractPeriods` zips the timestamps with the altitudes
  and hands the pairs to it. The lemmas below say what those runs are.
 */
module Observation {
  import opened Wrappers

  /** One grid point: its instant (microseconds) and the Sun's altitude there (degrees). */
  datatype Sample = Sample(time: int, alt: real)

  /** An emitted observation window, from the first to the last sample of a run. */
  datatype Period = Period(start: int, end: int)

  /** A run of samples, by the indices of its first and last sample. */
  datatype Run = Run(first: nat, last: nat)

  /** `zip(times, altitudes)`: pairs up to the length of the shorter input. */
  function Zip(times: seq<int>, alts: seq<real>): (ss: seq<Sample>)
    ensures |ss| == if |times| < |alts| then |times| else |alts|
    ensures forall k :: 0 <= k < |ss| ==> ss[k] == Sample(times[k], alts[k])
  {
    if times == [] || alts == [] then []
    else [Sample(times[0], alts[0])] + Zip(times[1..], alts[1..])
  }

  /** The strict comparison the scan makes: a sample exactly at the horizon is not above it. */
  predicate Above(ss: seq<Sample>, horizon: real, k: int)
    requires 0 <= k < |ss|
  {
    ss[k].alt > horizon
  }

  /** Every sample from `first` to `last` is above the horizon. */
  predicate AllAbove(ss: seq<Sample>, horizon: real, first: int, last: int)
  {
    forall k :: first <= k <= last ==> 0 <= k < |ss| && Above(ss, horizon, k)
  }

  /** Samples `first..last` are above the horizon and the run cannot be extended on either side. */
  predicate IsMaximalRun(ss: seq<Sample>, horizon: real, first: int, last: int)
  {
    && 0 <= first <= last < |ss|
    && AllAbove(ss, horizon, first, last)
    && (first == 0 || !Above(ss, horizon, first - 1))
    && (last == |ss| - 1 || !Above(ss, horizon, last + 1))
  }

  /** The window opens and closes at the timestamps of the first and last sample of a maximal run. */
  predicate SpansMaximalRun(ss: seq<Sample>, horizon: real, p: Period)
  {
    exists first, last :: 0 <= first <= last < |ss| && IsMaximalRun(ss, horizon, first, last)
      && p == Period(ss[first].time, ss[last].time)
  }

  /** Sample `k` opens a run: it is above the horizon and its predecessor, if any, is not. */
  predicate IsRunStart(ss: seq<Sample>, horizon: real, k: int)
    requires 0 <= k < |ss|
  {
    Above(ss, horizon, k) && (k == 0 || !Above(ss, horizon, k - 1))
  }

  /** The number of samples from `from` on that open a run. */
  function CountRunStarts(ss: seq<Sample>, horizon: real, from: nat): nat
    decreases |ss| - from
  {
    if from >= |ss| then 0
    else (if IsRunStart(ss, horizon, from) then 1 else 0) + CountRunStarts(ss, horizon, from + 1)
  }

  /** The timestamps increase strictly along the samples, as on the sampling grid. */
  predicate TimesIncreasing(ss: seq<Sample>)
  {
    forall k, k' :: 0 <= k < k' < |ss| ==> ss[k].time < ss[k'].time
  }

  /** Every run in `rs` names samples among the first `n`, first before last. */
  predicate RunsWithin(n: int, rs: seq<Run>)
  {
    forall j :: 0 <= j < |rs| ==> rs[j].first <= rs[j].last < n
  }

  predicate EveryRunAbove(ss: seq<Sample>, horizon: real, rs: seq<Run>)
  {
    forall j :: 0 <= j < |rs| ==> AllAbove(ss, horizon, rs[j].first, rs[j].last)
  }

  predicate EveryRunEndsMaximal(ss: seq<Sample>, horizon: real, rs: seq<Run>)
    requires RunsWithin(|ss|, rs)
  {
    forall j :: 0 <= j < |rs| ==> rs[j].last == |ss| - 1 || !Above(ss, horizon, rs[j].last + 1)
  }

  predicate EveryRunStartsMaximal(ss: seq<Sample>, horizon: real, from: nat, rs: seq<Run>)
    requires RunsWithin(|ss|, rs)
  {
    forall j :: 0 <= j < |rs| ==> rs[j].first == from || (rs[j].first > 0 && !Above(ss, horizon, rs[j].first - 1))
  }

  /** The runs are in order and at least one sample lies between consecutive runs. */
  predicate Separated(rs: seq<Run>)
  {
    forall j, j' :: 0 <= j < j' < |rs| ==> rs[j].last + 1 < rs[j'].first
  }

  /** The last sample of the run above the horizon that continues from sample `i`. */
  function RunEnd(ss: seq<Sample>, horizon: real, i: nat): (e: nat)
    requires i < |ss| && Above(ss, horizon, i)
    ensures i <= e < |ss|
    ensures AllAbove(ss, horizon, i, e)
    ensures e == |ss| - 1 || !Above(ss, horizon, e + 1)
    decreases |ss| - i
  {
    if i + 1 < |ss| && Above(ss, horizon, i + 1) then RunEnd(ss, horizon, i + 1) else i
  }

  /** A stretch above the horizon that stops before a sample that is not ends exactly there. */
  lemma {:induction false} RunEndAt(ss: seq<Sample>, horizon: real, i: nat, e: nat)
    requires i <= e < |ss|
    requires AllAbove(ss, horizon, i, e)
    requires e == |ss| - 1 || !Above(ss, horizon, e + 1)
    ensures RunEnd(ss, horizon, i) == e
    decreases e - i
  {
    if i < e {
      RunEndAt(ss, horizon, i + 1, e);
    }
  }

  /** The runs above the horizon among samples `from..`, in order. */
  function Runs(ss: seq<Sample>, horizon: real, from: nat): (rs: seq<Run>)
    ensures RunsWithin(|ss|, rs)
    ensures forall j :: 0 <= j < |rs| ==> from <= rs[j].first
    decreases |ss| - from
  {
    if from >= |ss| then []
    else if !Above(ss, horizon, from) then Runs(ss, horizon, from + 1)
    else
      var e := RunEnd(ss, horizon, from);
      [Run(from, e)] + Runs(ss, horizon, e + 1)
  }

  /** Every sample of every run `Runs` reports is above the horizon. */
  lemma {:induction false} RunsAbove(ss: seq<Sample>, horizon: real, from: nat)
    ensures EveryRunAbove(ss, horizon, Runs(ss, horizon, from))
    decreases |ss| - from
  {
    if from >= |ss| {
    } else if !Above(ss, horizon, from) {
      RunsAbove(ss, horizon, from + 1);
      assert Runs(ss, horizon, from) == Runs(ss, horizon, from + 1);
    } else {
      var e := RunEnd(ss, horizon, from);
      RunsAbove(ss, horizon, e + 1);
      var rs, rest := Runs(ss, horizon, from), Runs(ss, horizon, e + 1);
      assert rs == [Run(from, e)] + rest;
      forall j | 0 <= j < |rs| ensures AllAbove(ss, horizon, rs[j].first, rs[j].last) {
        if j == 0 {
          assert rs[0] == Run(from, e);
        } else {
          assert rs[j] == rest[j - 1];
        }
      }
    }
  }

  /** Every run `Runs` reports ends at the last sample or just before a sample that is not above the horizon. */
  lemma {:induction false} RunsEndMaximal(ss: seq<Sample>, horizon: real, from: nat)
    ensures EveryRunEndsMaximal(ss, horizon, Runs(ss, horizon, from))
    decreases |ss| - from
  {
    if from >= |ss| {
    } else if !Above(ss, horizon, from) {
      RunsEndMaximal(ss, horizon, from + 1);
      assert Runs(ss, horizon, from) == Runs(ss, horizon, from + 1);
    } else {
      var e := RunEnd(ss, horizon, from);
      RunsEndMaximal(ss, horizon, e + 1);
      var rs, rest := Runs(ss, horizon, from), Runs(ss, horizon, e + 1);
      assert rs == [Run(from, e)] + rest;
      forall j | 0 <= j < |rs| ensures rs[j].last == |ss| - 1 || !Above(ss, horizon, rs[j].last + 1) {
        if j == 0 {
          assert rs[0] == Run(from, e);
        } else {
          assert rs[j] == rest[j - 1];
        }
      }
    }
  }

  /** Every run `Runs` reports from `from` starts at `from` or just after a sample that is not above the horizon. */
  lemma {:induction false} RunsStartMaximal(ss: seq<Sample>, horizon: real, from: nat)
    ensures EveryRunStartsMaximal(ss, horizon, from, Runs(ss, horizon, from))
    decreases |ss| - from
  {
    if from >= |ss| {
    } else if !Above(ss, horizon, from) {
      RunsStartMaximal(ss, horizon, from + 1);
      assert Runs(ss, horizon, from) == Runs(ss, horizon, from + 1);
    } else {
      var e := RunEnd(ss, horizon, from);
      RunsStartMaximal(ss, horizon, e + 1);
      RunsAbove(ss, horizon, e + 1);
      RunsAfterRunStartMaximal(ss, horizon, from, e);
    }
  }

  /** The inductive step of `RunsStartMaximal` at a sample above the horizon. */
  lemma RunsAfterRunStartMaximal(ss: seq<Sample>, horizon: real, from: nat, e: nat)
    requires from < |ss| && Above(ss, horizon, from) && e == RunEnd(ss, horizon, from)
    requires EveryRunStartsMaximal(ss, horizon, e + 1, Runs(ss, horizon, e + 1))
    requires EveryRunAbove(ss, horizon, Runs(ss, horizon, e + 1))
    ensures EveryRunStartsMaximal(ss, horizon, from, Runs(ss, horizon, from))
  {
    var rs, rest := Runs(ss, horizon, from), Runs(ss, horizon, e + 1);
    assert rs == [Run(from, e)] + rest;
    forall j | 1 <= j < |rs|
      ensures rs[j].first > 0 && !Above(ss, horizon, rs[j].first - 1)
    {
      var r := rest[j - 1];
      assert rs[j] == r;
      assert AllAbove(ss, horizon, r.first, r.last);
      assert Above(ss, horizon, r.first);
      assert r.first != e + 1;
    }
  }

  /** Consecutive runs `Runs` reports are in order with at least one sample between them. */
  lemma {:induction false} RunsSeparated(ss: seq<Sample>, horizon: real, from: nat)
    ensures Separated(Runs(ss, horizon, from))
    decreases |ss| - from
  {
    var rs := Runs(ss, horizon, from);
    if from >= |ss| {
    } else if !Above(ss, horizon, from) {
      RunsSeparated(ss, horizon, from + 1);
      assert rs == Runs(ss, horizon, from + 1);
    } else {
      var e := RunEnd(ss, horizon, from);
      var rest := Runs(ss, horizon, e + 1);
      RunsSeparated(ss, horizon, e + 1);
      RunsAbove(ss, horizon, e + 1);
      assert rs == [Run(from, e)] + rest;
      forall j, j' | 0 <= j < j' < |rs| ensures rs[j].last + 1 < rs[j'].first {
        assert rs[j'] == rest[j' - 1];
        if j > 0 {
          assert rs[j] == rest[j - 1];
        } else {
          assert AllAbove(ss, horizon, rest[j' - 1].first, rest[j' - 1].last);
        }
      }
    }
  }

  /** Every sample above the horizon from `from` on lies inside one of the runs `Runs` reports. */
  lemma {:induction false} RunsCover(ss: seq<Sample>, horizon: real, from: nat, k: nat)
    requires from <= k < |ss| && Above(ss, horizon, k)
    ensures exists j :: (0 <= j < |Runs(ss, horizon, from)|
      && Runs(ss, horizon, from)[j].first <= k <= Runs(ss, horizon, from)[j].last)
    decreases |ss| - from
  {
    var rs := Runs(ss, horizon, from);
    if !Above(ss, horizon, from) {
      RunsCover(ss, horizon, from + 1, k);
      assert rs == Runs(ss, horizon, from + 1);
    } else {
      var e := RunEnd(ss, horizon, from);
      var rest := Runs(ss, horizon, e + 1);
      assert rs == [Run(from, e)] + rest;
      if k <= e {
        assert rs[0].first <= k <= rs[0].last;
      } else {
        RunsCover(ss, horizon, e + 1, k);
        var j :| 0 <= j < |rest| && rest[j].first <= k <= rest[j].last;
        assert rs[j + 1] == rest[j];
      }
    }
  }

  /** With no sample above the horizon from `from` on there is no run. */
  lemma {:induction false} RunsNone(ss: seq<Sample>, horizon: real, from: nat)
    requires forall k :: from <= k < |ss| ==> !Above(ss, horizon, k)
    ensures Runs(ss, horizon, from) == []
    decreases |ss| - from
  {
    if from < |ss| {
      RunsNone(ss, horizon, from + 1);
    }
  }

  /** No run is reported exactly when no sample from `from` on is above the horizon. */
  lemma RunsEmptyIff(ss: seq<Sample>, horizon: real, from: nat)
    ensures Runs(ss, horizon, from) == [] <==> forall k :: from <= k < |ss| ==> !Above(ss, horizon, k)
  {
    if forall k :: from <= k < |ss| ==> !Above(ss, horizon, k) {
      RunsNone(ss, horizon, from);
    } else {
      var k :| from <= k < |ss| && Above(ss, horizon, k);
      RunsCover(ss, horizon, from, k);
    }
  }

  /** Inside a stretch above the horizon no sample opens a run. */
  lemma {:induction false} NoRunStartsInside(ss: seq<Sample>, horizon: real, i: nat, e: nat)
    requires 0 < i <= e + 1 <= |ss|
    requires AllAbove(ss, horizon, i - 1, e)
    ensures CountRunStarts(ss, horizon, i) == CountRunStarts(ss, horizon, e + 1)
    decreases e + 1 - i
  {
    if i <= e {
      assert Above(ss, horizon, i - 1);
      NoRunStartsInside(ss, horizon, i + 1, e);
    }
  }

  /**
    Starting outside a run, `Runs` reports one run per sample that opens one:
    per sample above the horizon whose predecessor is not.
   */
  lemma {:induction false} RunsCount(ss: seq<Sample>, horizon: real, from: nat)
    requires from == 0 || from >= |ss| || !Above(ss, horizon, from - 1) || !Above(ss, horizon, from)
    ensures |Runs(ss, horizon, from)| == CountRunStarts(ss, horizon, from)
    decreases |ss| - from
  {
    if from >= |ss| {
    } else if !Above(ss, horizon, from) {
      RunsCount(ss, horizon, from + 1);
    } else {
      var e := RunEnd(ss, horizon, from);
      assert IsRunStart(ss, horizon, from);
      RunsCount(ss, horizon, e + 1);
      NoRunStartsInside(ss, horizon, from + 1, e);
    }
  }

  /** The timestamps of each run's first and last sample. */
  function Stamp(ss: seq<Sample>, rs: seq<Run>): (ps: seq<Period>)
    requires RunsWithin(|ss|, rs)
    ensures |ps| == |rs|
  {
    if rs == [] then [] else [Period(ss[rs[0].first].time, ss[rs[0].last].time)] + Stamp(ss, rs[1..])
  }

  /** Window `j` carries the timestamps of the first and last sample of run `j`. */
  lemma {:induction false} StampAt(ss: seq<Sample>, rs: seq<Run>)
    requires RunsWithin(|ss|, rs)
    ensures forall j :: 0 <= j < |rs| ==> Stamp(ss, rs)[j] == Period(ss[rs[j].first].time, ss[rs[j].last].time)
  {
    if rs != [] {
      StampAt(ss, rs[1..]);
    }
  }

  lemma StampAppend(ss: seq<Sample>, rs: seq<Run>, rs': seq<Run>)
    requires RunsWithin(|ss|, rs) && RunsWithin(|ss|, rs')
    ensures RunsWithin(|ss|, rs + rs')
    ensures Stamp(ss, rs + rs') == Stamp(ss, rs) + Stamp(ss, rs')
    decreases |rs|
  {
    assert RunsWithin(|ss|, rs + rs') by {
      forall j | 0 <= j < |rs + rs'| ensures (rs + rs')[j].first <= (rs + rs')[j].last < |ss| {
        if j >= |rs| { assert (rs + rs')[j] == rs'[j - |rs|]; }
      }
    }
    if rs == [] {
      assert rs + rs' == rs';
    } else {
      assert RunsWithin(|ss|, rs[1..]) by {
        forall j | 0 <= j < |rs| - 1 ensures rs[1..][j].first <= rs[1..][j].last < |ss| {
          assert rs[1..][j] == rs[j + 1];
        }
      }
      StampAppend(ss, rs[1..], rs');
      assert (rs + rs')[1..] == rs[1..] + rs';
    }
  }

  /** A run that starts at `first` and ends at `last` is the next run `Runs` reports from `first`. */
  lemma PeriodsFromRun(ss: seq<Sample>, horizon: real, first: nat, last: nat)
    requires first <= last < |ss|
    requires AllAbove(ss, horizon, first, last)
    requires last == |ss| - 1 || !Above(ss, horizon, last + 1)
    ensures Stamp(ss, Runs(ss, horizon, first))
      == [Period(ss[first].time, ss[last].time)] + Stamp(ss, Runs(ss, horizon, last + 1))
  {
    RunEndAt(ss, horizon, first, last);
    StampAppend(ss, [Run(first, last)], Runs(ss, horizon, last + 1));
  }

  /** The observation windows of a sample sequence: the timestamps that open and close each run. */
  function Periods(ss: seq<Sample>, horizon: real): seq<Period>
  {
    Stamp(ss, Runs(ss, horizon, 0))
  }

  /**
    The scan's state before sample `i`: the windows emitted so far followed by
    the windows of the runs from sample `from` on are all the windows. With no
    window open, `from` is `i`. With one open, it opened at sample `from`,
    every sample since is above the horizon and its end is sample `i - 1`.
   */
  ghost predicate ScanState(ss: seq<Sample>, horizon: real, i: nat, from: nat,
                            done: seq<Period>, start: Option<int>, end: int)
  {
    && from <= i <= |ss|
    && done + Stamp(ss, Runs(ss, horizon, from)) == Periods(ss, horizon)
    && (start.None? ==> from == i)
    && (start.Some? ==>
          && from < i
          && start.value == ss[from].time
          && end == ss[i - 1].time
          && AllAbove(ss, horizon, from, i - 1))
  }

  /**
    Closing the open window of the run `first..last` moves it from the windows
    still to come to the windows emitted, leaving their concatenation unchanged.
   */
  lemma CloseWindow(ss: seq<Sample>, horizon: real, first: nat, last: nat, done: seq<Period>)
    requires first <= last < |ss|
    requires AllAbove(ss, horizon, first, last)
    requires last == |ss| - 1 || !Above(ss, horizon, last + 1)
    requires done + Stamp(ss, Runs(ss, horizon, first)) == Periods(ss, horizon)
    ensures (done + [Period(ss[first].time, ss[last].time)]) + Stamp(ss, Runs(ss, horizon, last + 1))
      == Periods(ss, horizon)
  {
    var period := Period(ss[first].time, ss[last].time);
    var rest := Stamp(ss, Runs(ss, horizon, last + 1));
    PeriodsFromRun(ss, horizon, first, last);
    assert (done + [period]) + rest == done + ([period] + rest);
  }

  /** One iteration of the scan keeps its state: opening or extending a window, or closing one. */
  lemma ScanStep(ss: seq<Sample>, horizon: real, i: nat, from: nat,
                 done: seq<Period>, start: Option<int>, end: int)
    requires i < |ss| && ScanState(ss, horizon, i, from, done, start, end)
    ensures ss[i].alt > horizon ==>
      ScanState(ss, horizon, i + 1, from, done, Some(if start.None? then ss[i].time else start.value), ss[i].time)
    ensures ss[i].alt <= horizon ==>
      ScanState(ss, horizon, i + 1, i + 1, if start.Some? then done + [Period(start.value, end)] else done, None, end)
  {
    if ss[i].alt <= horizon {
      if start.Some? {
        CloseWindow(ss, horizon, from, i - 1, done);
      } else {
        assert Runs(ss, horizon, i) == Runs(ss, horizon, i + 1);
      }
    }
  }

  /** After the last sample, closing a window still open yields all the windows. */
  lemma ScanEnd(ss: seq<Sample>, horizon: real, from: nat, done: seq<Period>, start: Option<int>, end: int)
    requires ScanState(ss, horizon, |ss|, from, done, start, end)
    ensures (if start.Some? then done + [Period(start.value, end)] else done) == Periods(ss, horizon)
  {
    if start.Some? {
      CloseWindow(ss, horizon, from, |ss| - 1, done);
    }
    assert Runs(ss, horizon, |ss|) == [];
  }

  /**
    The scan that `ExtractPeriods` runs over the timestamps zipped with the
    altitudes: open a window at the first sample above the horizon, move its
    end to every further sample above it, close it at the first sample that
    is not, and close a window still open after the last sample.
   */
  method ScanSamples(samples: seq<Sample>, horizon: real) returns (periods: seq<Period>)
    ensures periods == Periods(samples, horizon)
  {
    periods := [];
    var startObservation: Option<int> := None;
    var endObservation: int := 0;
    ghost var from: nat := 0;
    var i := 0;
    while i < |samples|
      invariant ScanState(samples, horizon, i, from, periods, startObservation, endObservation)
    {
      ScanStep(samples, horizon, i, from, periods, startObservation, endObservation);
      var sample := samples[i];
      if sample.alt > horizon {
        if startObservation.None? {
          startObservation := Some(sample.time);
        }
        endObservation := sample.time;
      } else {
        if startObservation.Some? {
          periods := periods + [Period(startObservation.value, endObservation)];
          startObservation := None;
        }
        from := i + 1;
      }
      i := i + 1;
    }
    ScanEnd(samples, horizon, from, periods, startObservation, endObservation);
    if startObservation.Some? {
      periods := periods + [Period(startObservation.value, endObservation)];
    }
  }

  /** The observation windows of the samples `zip(times, altitudes)`, in scan order. */
  method ExtractPeriods(times: seq<int>, altitudes: seq<real>, horizon: real) returns (periods: seq<Period>)
    ensures periods == Periods(Zip(times, altitudes), horizon)
  {
    periods := ScanSamples(Zip(times, altitudes), horizon);
  }

  /** Window `j` carries the timestamps of the first and last sample of run `j`. */
  lemma PeriodAt(ss: seq<Sample>, horizon: real, j: nat)
    requires j < |Periods(ss, horizon)|
    ensures j < |Runs(ss, horizon, 0)|
    ensures Runs(ss, horizon, 0)[j].first <= Runs(ss, horizon, 0)[j].last < |ss|
    ensures Periods(ss, horizon)[j]
      == Period(ss[Runs(ss, horizon, 0)[j].first].time, ss[Runs(ss, horizon, 0)[j].last].time)
  {
    StampAt(ss, Runs(ss, horizon, 0));
  }

  /**
    Each window opens and closes at the timestamps of actual samples, and those
    samples bound a maximal run strictly above the horizon: no interpolation,
    and no window could be widened by a neighbouring sample.
   */
  lemma PeriodsAreMaximalRuns(ss: seq<Sample>, horizon: real)
    ensures forall j :: 0 <= j < |Periods(ss, horizon)| ==> SpansMaximalRun(ss, horizon, Periods(ss, horizon)[j])
  {
    var rs := Runs(ss, horizon, 0);
    RunsAbove(ss, horizon, 0);
    RunsEndMaximal(ss, horizon, 0);
    RunsStartMaximal(ss, horizon, 0);
    forall j | 0 <= j < |Periods(ss, horizon)|
      ensures SpansMaximalRun(ss, horizon, Periods(ss, horizon)[j])
    {
      PeriodAt(ss, horizon, j);
      var first, last := rs[j].first, rs[j].last;
      assert IsMaximalRun(ss, horizon, first, last);
      assert Periods(ss, horizon)[j] == Period(ss[first].time, ss[last].time);
    }
  }

  /** On increasing timestamps the windows are in ascending order and pairwise disjoint, each with start <= end. */
  lemma PeriodsOrdered(ss: seq<Sample>, horizon: real)
    requires TimesIncreasing(ss)
    ensures forall j :: 0 <= j < |Periods(ss, horizon)| ==>
      Periods(ss, horizon)[j].start <= Periods(ss, horizon)[j].end
    ensures forall j, j' :: 0 <= j < j' < |Periods(ss, horizon)| ==>
      Periods(ss, horizon)[j].end < Periods(ss, horizon)[j'].start
  {
    var rs := Runs(ss, horizon, 0);
    var ps := Periods(ss, horizon);
    RunsSeparated(ss, horizon, 0);
    forall j, j' | 0 <= j < j' < |ps| ensures ps[j].end < ps[j'].start {
      PeriodAt(ss, horizon, j);
      PeriodAt(ss, horizon, j');
      var last, first' := rs[j].last, rs[j'].first;
      assert last < first';
      assert ss[last].time < ss[first'].time;
    }
    forall j | 0 <= j < |ps| ensures ps[j].start <= ps[j].end {
      PeriodAt(ss, horizon, j);
      var first, last := rs[j].first, rs[j].last;
      if first < last {
        assert ss[first].time < ss[last].time;
      }
    }
  }

  /** There are as many windows as samples above the horizon whose predecessor, if any, is not. */
  lemma PeriodsCount(ss: seq<Sample>, horizon: real)
    ensures |Periods(ss, horizon)| == CountRunStarts(ss, horizon, 0)
  {
    RunsCount(ss, horizon, 0);
  }

  /** The window around a sample above the horizon: run `j` contains the sample. */
  lemma WindowOf(ss: seq<Sample>, horizon: real, k: nat) returns (j: nat)
    requires k < |ss| && ss[k].alt > horizon
    ensures j < |Periods(ss, horizon)| && j < |Runs(ss, horizon, 0)|
    ensures Runs(ss, horizon, 0)[j].first <= k <= Runs(ss, horizon, 0)[j].last < |ss|
    ensures Periods(ss, horizon)[j]
      == Period(ss[Runs(ss, horizon, 0)[j].first].time, ss[Runs(ss, horizon, 0)[j].last].time)
  {
    var rs := Runs(ss, horizon, 0);
    RunsCover(ss, horizon, 0, k);
    j :| 0 <= j < |rs| && rs[j].first <= k <= rs[j].last;
    PeriodAt(ss, horizon, j);
  }

  /** Every sample above the horizon falls inside some window. */
  lemma PeriodsCoverAbove(ss: seq<Sample>, horizon: real, k: nat)
    requires TimesIncreasing(ss)
    requires k < |ss| && ss[k].alt > horizon
    ensures exists j :: (0 <= j < |Periods(ss, horizon)|
      && Periods(ss, horizon)[j].start <= ss[k].time <= Periods(ss, horizon)[j].end)
  {
    var j := WindowOf(ss, horizon, k);
    var first, last := Runs(ss, horizon, 0)[j].first, Runs(ss, horizon, 0)[j].last;
    if first < k {
      assert ss[first].time < ss[k].time;
    }
    if k < last {
      assert ss[k].time < ss[last].time;
    }
    assert Periods(ss, horizon)[j].start <= ss[k].time <= Periods(ss, horizon)[j].end;
  }

  /** A sample at or below the horizon lies between the windows, in none of them. */
  lemma NotAboveInNoWindow(ss: seq<Sample>, horizon: real, k: nat)
    requires TimesIncreasing(ss)
    requires k < |ss| && ss[k].alt <= horizon
    ensures forall j :: 0 <= j < |Periods(ss, horizon)| ==>
      !(Periods(ss, horizon)[j].start <= ss[k].time <= Periods(ss, horizon)[j].end)
  {
    var rs := Runs(ss, horizon, 0);
    var ps := Periods(ss, horizon);
    RunsAbove(ss, horizon, 0);
    forall j | 0 <= j < |ps| ensures !(ps[j].start <= ss[k].time <= ps[j].end) {
      PeriodAt(ss, horizon, j);
      var first, last := rs[j].first, rs[j].last;
      assert AllAbove(ss, horizon, first, last);
      assert !Above(ss, horizon, k);
      assert !(first <= k <= last);
      if k < first {
        assert ss[k].time < ss[first].time;
      } else {
        assert ss[last].time < ss[k].time;
      }
    }
  }

  /** When the sample before one at or below the horizon is above it, a window ends at that earlier sample. */
  lemma NotAboveEndsWindow(ss: seq<Sample>, horizon: real, k: nat)
    requires 0 < k < |ss| && ss[k].alt <= horizon && ss[k - 1].alt > horizon
    ensures exists j :: 0 <= j < |Periods(ss, horizon)| && Periods(ss, horizon)[j].end == ss[k - 1].time
  {
    var rs := Runs(ss, horizon, 0);
    RunsAbove(ss, horizon, 0);
    var j := WindowOf(ss, horizon, k - 1);
    assert AllAbove(ss, horizon, rs[j].first, rs[j].last);
    assert !Above(ss, horizon, k);
    assert rs[j].last == k - 1;
    assert Periods(ss, horizon)[j].end == ss[k - 1].time;
  }

  /**
    A sample at or below the horizon (in particular one exactly at it) lies in
    no window, and when the sample before it was above the horizon a window
    closes at that earlier sample.
   */
  lemma NotAboveClosesRun(ss: seq<Sample>, horizon: real, k: nat)
    requires TimesIncreasing(ss)
    requires k < |ss| && ss[k].alt <= horizon
    ensures forall j :: 0 <= j < |Periods(ss, horizon)| ==>
      !(Periods(ss, horizon)[j].start <= ss[k].time <= Periods(ss, horizon)[j].end)
    ensures k > 0 && ss[k - 1].alt > horizon ==>
      exists j :: 0 <= j < |Periods(ss, horizon)| && Periods(ss, horizon)[j].end == ss[k - 1].time
  {
    NotAboveInNoWindow(ss, horizon, k);
    if k > 0 && ss[k - 1].alt > horizon {
      NotAboveEndsWindow(ss, horizon, k);
    }
  }

  /** No window at all exactly when no sample is above the horizon (in particular for no samples). */
  lemma PeriodsEmptyIff(ss: seq<Sample>, horizon: real)
    ensures Periods(ss, horizon) == [] <==> forall k :: 0 <= k < |ss| ==> ss[k].alt <= horizon
  {
    RunsEmptyIff(ss, horizon, 0);
    assert |Periods(ss, horizon)| == |Runs(ss, horizon, 0)|;
    forall k | 0 <= k < |ss| ensures !Above(ss, horizon, k) <==> ss[k].alt <= horizon { }
  }

  /** When every sample is above the horizon there is one window, from the first timestamp to the last. */
  lemma PeriodsAllAbove(ss: seq<Sample>, horizon: real)
    requires |ss| > 0
    requires forall k :: 0 <= k < |ss| ==> ss[k].alt > horizon
    ensures Periods(ss, horizon) == [Period(ss[0].time, ss[|ss| - 1].time)]
  {
    RunEndAt(ss, horizon, 0, |ss| - 1);
    assert Runs(ss, horizon, 0) == [Run(0, |ss| - 1)] + Runs(ss, horizon, |ss|);
  }

  /** Altitudes 10, 40, 50, 20 against a horizon of 30 give the one window from the second sample to the third. */
  lemma ScenarioSingleWindow(t0: int, t1: int, t2: int, t3: int)
    ensures Periods([Sample(t0, 10.0), Sample(t1, 40.0), Sample(t2, 50.0), Sample(t3, 20.0)], 30.0)
      == [Period(t1, t2)]
  {
    var ss := [Sample(t0, 10.0), Sample(t1, 40.0), Sample(t2, 50.0), Sample(t3, 20.0)];
    RunEndAt(ss, 30.0, 1, 2);
    assert Runs(ss, 30.0, 3) == [] by { RunsNone(ss, 30.0, 3); }
    assert Runs(ss, 30.0, 0) == [Run(1, 2)];
    StampAt(ss, [Run(1, 2)]);
  }

  /**
    A sample exactly at the horizon of 30 splits two isolated samples above it
    into two one-sample windows, each with start equal to end.
   */
  lemma ScenarioBoundarySplits(t0: int, t1: int, t2: int)
    ensures Periods([Sample(t0, 40.0), Sample(t1, 30.0), Sample(t2, 50.0)], 30.0)
      == [Period(t0, t0), Period(t2, t2)]
  {
    var ss := [Sample(t0, 40.0), Sample(t1, 30.0), Sample(t2, 50.0)];
    RunEndAt(ss, 30.0, 0, 0);
    RunEndAt(ss, 30.0, 2, 2);
    assert Runs(ss, 30.0, 2) == [Run(2, 2)];
    assert Runs(ss, 30.0, 0) == [Run(0, 0), Run(2, 2)];
    StampAt(ss, [Run(0, 0), Run(2, 2)]);
  }
}
