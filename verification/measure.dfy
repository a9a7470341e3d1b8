/** `Measurement.count_events` and `Measurement.measure_count_events`: one
    trial is a capture, a frequency query and a peak count; a run repeats the
    trial, averages the event counts and saves one table. Peak detection is
    the parameter `findPeaks`, an arbitrary function of the signal. */
module Measure {
  import opened Wrappers
  import opened Exceptions
  import Numbers
  import Scope
  import Naming

  const FrequencyQuery := ":MEASure:FREQuency?"
  const TimeScaleQuery := ":TIM:SCAL?"

  /** Horizontal divisions on the instrument's screen. */
  const Divisions := 14.0

  /** What the instrument answers during one trial. */
  datatype TrialExchange = TrialExchange(capture: Scope.Replies, frequency: string)

  /** One row of the saved table, columns `events` and `frequency`. */
  datatype TrialRecord = TrialRecord(events: nat, frequency: real)

  /** The commands one trial issued and its row or exception. */
  datatype Trial = Trial(trace: seq<Scope.Command>, result: Result<TrialRecord, Exception>)

  /** The figures a run prints: the mean count, the time scale, the time
      window of the screen and the implied counts per second, and the raw
      frequency reply. */
  datatype Summary = Summary(mean: real, timeScale: real, window: real, countsPerSecond: real, frequency: string)

  /** `summary` holds the figures of `count` trials that counted `total`
      events under time scale `timeScale`: the mean count, the window of
      `Divisions` divisions and the counts per second of window, with the
      frequency reply as received. */
  predicate Summarises(summary: Summary, total: nat, count: nat, timeScale: real, frequency: string) {
    && summary.mean * count as real == total as real
    && summary.timeScale == timeScale
    && summary.window == timeScale * Divisions
    && summary.countsPerSecond * summary.window == summary.mean
    && summary.frequency == frequency
  }

  /** How a run ends: one table saved under `path`, or an exception with
      nothing saved. */
  datatype Outcome =
    | Saved(path: string, table: seq<TrialRecord>, summary: Summary)
    | Aborted(error: Exception)

  /** The commands of a trial that completes. */
  function TrialCommands(channel: string): seq<Scope.Command> {
    Scope.CaptureCommands(channel) + [Scope.Query(FrequencyQuery)]
  }

  /** `count_events(channel)`: capture, then query the frequency, count the
      peaks and convert the frequency reply. */
  function CountEvents(channel: string, x: TrialExchange, findPeaks: seq<real> -> nat): (r: Trial)
    ensures var c := Scope.CaptureWaveform(channel, x.capture);
      c.result.Failure? ==> r.trace == c.trace && r.result == Failure(c.result.error)
    ensures var c := Scope.CaptureWaveform(channel, x.capture);
      c.result.Success? ==> r.trace == TrialCommands(channel)
    ensures r.result.Success? <==>
      Scope.CaptureWaveform(channel, x.capture).result.Success? && Numbers.ParseReal(x.frequency).Some?
    ensures r.result.Success? ==>
      r.result.value == TrialRecord(findPeaks(Scope.CaptureWaveform(channel, x.capture).result.value.signal),
                                    Numbers.ParseReal(x.frequency).value)
    ensures Scope.CaptureWaveform(channel, x.capture).result.Success? && r.result.Failure? ==>
      r.result.error == ValueError(x.frequency)
  {
    var c := Scope.CaptureWaveform(channel, x.capture);
    match c.result
    case Failure(e) => Trial(c.trace, Failure(e))
    case Success(w) =>
      var trace := c.trace + [Scope.Query(FrequencyQuery)];
      var events := findPeaks(w.signal);
      match Numbers.ParseReal(x.frequency)
      case None => Trial(trace, Failure(ValueError(x.frequency)))
      case Some(f) => Trial(trace, Success(TrialRecord(events, f)))
  }

  /** `n` copies of `block`, one after the other. */
  function Repeat<T>(block: seq<T>, n: nat): (r: seq<T>)
    ensures |r| == n * |block|
  {
    if n == 0 then [] else Repeat(block, n - 1) + block
  }

  /** The sum of the `events` column. */
  function TotalEvents(rows: seq<TrialRecord>): nat {
    if |rows| == 0 then 0 else TotalEvents(rows[..|rows| - 1]) + rows[|rows| - 1].events
  }

  /** Counts that all lie in `lo..hi` sum to between `lo` and `hi` times
      their number. */
  lemma {:induction false} TotalEventsBounds(rows: seq<TrialRecord>, lo: nat, hi: nat)
    requires forall k :: 0 <= k < |rows| ==> lo <= rows[k].events <= hi
    ensures lo * |rows| <= TotalEvents(rows) <= hi * |rows|
  {
    if |rows| > 0 {
      var init := rows[..|rows| - 1];
      var m := |init|;
      assert |rows| == m + 1;
      TotalEventsBounds(init, lo, hi);
      assert TotalEvents(rows) == TotalEvents(init) + rows[m].events;
      assert lo * (m + 1) == lo * m + lo;
      assert hi * (m + 1) == hi * m + hi;
    }
  }

  /** Scaling by a positive factor keeps the order. */
  lemma ScaleMonotone(a: real, b: real, n: real)
    requires n > 0.0
    requires a * n <= b * n
    ensures a <= b
  {
    assert (b - a) * n == b * n - a * n;
  }

  /** Dividing by a positive count keeps a bound scaled by that count. */
  lemma DivideBounds(total: nat, n: nat, lo: nat, hi: nat)
    requires n > 0
    requires lo * n <= total <= hi * n
    ensures lo as real <= total as real / n as real <= hi as real
  {
    var q := total as real / n as real;
    assert q * n as real == total as real;
    assert (lo * n) as real == lo as real * n as real;
    assert (hi * n) as real == hi as real * n as real;
    ScaleMonotone(lo as real, q, n as real);
    ScaleMonotone(q, hi as real, n as real);
  }

  /** The mean of counts that all lie in `lo..hi` lies in `lo..hi` too. */
  lemma MeanBounds(rows: seq<TrialRecord>, lo: nat, hi: nat)
    requires |rows| > 0
    requires forall k :: 0 <= k < |rows| ==> lo <= rows[k].events <= hi
    ensures lo as real <= TotalEvents(rows) as real / |rows| as real <= hi as real
  {
    TotalEventsBounds(rows, lo, hi);
    DivideBounds(TotalEvents(rows), |rows|, lo, hi);
  }

  /** The trial each exchange gives, in order, `trial` being the whole of
      one pass of the loop. */
  function Trials(trial: TrialExchange -> Trial, xs: seq<TrialExchange>): (r: seq<Trial>)
    ensures |r| == |xs|
    ensures forall k :: 0 <= k < |xs| ==> r[k] == trial(xs[k])
  {
    if |xs| == 0 then [] else Trials(trial, xs[..|xs| - 1]) + [trial(xs[|xs| - 1])]
  }

  /** One pass of the loop of `measure_count_events` on `channel`. */
  function TrialOn(channel: string, findPeaks: seq<real> -> nat): TrialExchange -> Trial {
    x => CountEvents(channel, x, findPeaks)
  }

  /** Every trial that completes issues the same commands. */
  lemma TrialOnCommands(channel: string, findPeaks: seq<real> -> nat)
    ensures forall x :: TrialOn(channel, findPeaks)(x).result.Success? ==>
      TrialOn(channel, findPeaks)(x).trace == TrialCommands(channel)
  {
    forall x | TrialOn(channel, findPeaks)(x).result.Success?
      ensures TrialOn(channel, findPeaks)(x).trace == TrialCommands(channel)
    {
      var t := CountEvents(channel, x, findPeaks);
      assert TrialOn(channel, findPeaks)(x) == t;
    }
  }

  /** The index of the first trial that fails, or `|trials|` if none does. */
  function FirstFailure(trials: seq<Trial>): (f: nat)
    ensures f <= |trials|
    ensures forall k :: 0 <= k < f ==> trials[k].result.Success?
    ensures f < |trials| ==> trials[f].result.Failure?
  {
    if |trials| == 0 then 0
    else if trials[0].result.Failure? then 0
    else 1 + FirstFailure(trials[1..])
  }

  /** The number of passes `range(numIters)` makes. */
  function Iterations(numIters: int): nat {
    if numIters > 0 then numIters else 0
  }

  /** The loop of `measure_count_events`: one trial per exchange in order,
      appending each row and adding its count to a running total, stopping
      at the first exception, which propagates. */
  method RunTrials(trial: TrialExchange -> Trial, xs: seq<TrialExchange>, block: seq<Scope.Command>)
    returns (trace: seq<Scope.Command>, results: Result<seq<TrialRecord>, Exception>, total: nat)
    requires forall x :: trial(x).result.Success? ==> trial(x).trace == block
    ensures FirstFailure(Trials(trial, xs)) < |xs| ==>
      && results == Failure(Trials(trial, xs)[FirstFailure(Trials(trial, xs))].result.error)
      && trace == Repeat(block, FirstFailure(Trials(trial, xs))) + Trials(trial, xs)[FirstFailure(Trials(trial, xs))].trace
    ensures results.Success? <==> FirstFailure(Trials(trial, xs)) == |xs|
    ensures results.Success? ==>
      && trace == Repeat(block, |xs|)
      && |results.value| == |xs|
      && (forall k :: 0 <= k < |xs| ==> Trials(trial, xs)[k].result == Success(results.value[k]))
      && total == TotalEvents(results.value)
  {
    ghost var trials := Trials(trial, xs);
    var rows: seq<TrialRecord> := [];
    trace, total := [], 0;
    var i := 0;
    while i < |xs|
      invariant 0 <= i <= |xs|
      invariant |rows| == i
      invariant forall k :: 0 <= k < i ==> trials[k].result == Success(rows[k])
      invariant trace == Repeat(block, i)
      invariant total == TotalEvents(rows)
    {
      var t := trial(xs[i]);
      trace := trace + t.trace;
      if t.result.Failure? {
        assert FirstFailure(trials) == i;
        return trace, Failure(t.result.error), total;
      }
      assert (rows + [t.result.value])[..i] == rows;
      rows := rows + [t.result.value];
      total := total + t.result.value.events;
      i := i + 1;
    }
    return trace, Success(rows), total;
  }

  /** What `measure_count_events` does after its loop, given the rows of
      every trial and their running total of events: the mean (raising on no
      rows), the two summary queries, the conversion of the time scale and the
      division by the screen's time window, then one table saved under the
      resolved name. */
  method Summarise(rows: seq<TrialRecord>, total: nat, outputName: string, folder: string, existing: set<string>,
                   timeScaleReply: string, frequencyReply: string)
    returns (trace: seq<Scope.Command>, outcome: Outcome)
    ensures |rows| == 0 ==> outcome == Aborted(ZeroDivisionError) && trace == []
    ensures |rows| > 0 ==> trace == [Scope.Query(TimeScaleQuery), Scope.Query(FrequencyQuery)]
    ensures |rows| > 0 && Numbers.ParseReal(timeScaleReply).None? ==> outcome == Aborted(ValueError(timeScaleReply))
    ensures |rows| > 0 && Numbers.ParseReal(timeScaleReply) == Some(0.0) ==> outcome == Aborted(ZeroDivisionError)
    ensures (|rows| > 0 && Numbers.ParseReal(timeScaleReply).Some? && Numbers.ParseReal(timeScaleReply).value != 0.0 &&
             '.' !in outputName) ==> outcome == Aborted(IndexError)
    ensures outcome.Saved? <==>
      |rows| > 0 && Numbers.ParseReal(timeScaleReply).Some? && Numbers.ParseReal(timeScaleReply).value != 0.0 &&
      '.' in outputName
    ensures outcome.Saved? ==>
      && outcome.table == rows
      && Summarises(outcome.summary, total, |rows|, Numbers.ParseReal(timeScaleReply).value, frequencyReply)
      && outcome.path !in existing
      && Naming.Resolves(folder, outputName, existing, outcome.path)
  {
    if |rows| == 0 {
      return [], Aborted(ZeroDivisionError);
    }
    var mean := total as real / |rows| as real;
    trace := [Scope.Query(TimeScaleQuery), Scope.Query(FrequencyQuery)];
    var timeScale := Numbers.ParseReal(timeScaleReply);
    if timeScale.None? {
      return trace, Aborted(ValueError(timeScaleReply));
    }
    var window := timeScale.value * Divisions;
    if window == 0.0 {
      return trace, Aborted(ZeroDivisionError);
    }
    var path := Naming.ValidateFileName(folder, outputName, existing);
    if path.Failure? {
      return trace, Aborted(path.error);
    }
    var summary := Summary(mean, timeScale.value, window, mean / window, frequencyReply);
    return trace, Saved(path.value, rows, summary);
  }

  /** `measure_count_events(channel, numIters, outputName)`. Trial `k` sees
      `exchanges[k]`; after the loop the time scale and the frequency are
      queried, and the name is resolved against the files of `folder`. */
  method MeasureCountEvents(channel: string, numIters: int, outputName: string,
                            folder: string, existing: set<string>,
                            exchanges: seq<TrialExchange>, timeScaleReply: string, frequencyReply: string,
                            findPeaks: seq<real> -> nat)
    returns (trace: seq<Scope.Command>, outcome: Outcome)
    requires numIters <= |exchanges|
    // a failing trial ends the run with its exception, nothing saved
    ensures var trials := Trials(TrialOn(channel, findPeaks), exchanges[..Iterations(numIters)]);
      var f := FirstFailure(trials);
      f < |trials| ==>
        && outcome == Aborted(trials[f].result.error)
        && trace == Repeat(TrialCommands(channel), f) + trials[f].trace
    // with no trials the mean divides by zero before the summary queries
    ensures numIters <= 0 ==> outcome == Aborted(ZeroDivisionError) && trace == []
    ensures var trials := Trials(TrialOn(channel, findPeaks), exchanges[..Iterations(numIters)]);
      numIters > 0 && FirstFailure(trials) == numIters ==>
        trace == Repeat(TrialCommands(channel), numIters) + [Scope.Query(TimeScaleQuery), Scope.Query(FrequencyQuery)]
    // after a complete loop, the summary raises in source order
    ensures var trials := Trials(TrialOn(channel, findPeaks), exchanges[..Iterations(numIters)]);
      var timeScale := Numbers.ParseReal(timeScaleReply);
      numIters > 0 && FirstFailure(trials) == numIters ==>
        && (timeScale.None? ==> outcome == Aborted(ValueError(timeScaleReply)))
        && (timeScale == Some(0.0) ==> outcome == Aborted(ZeroDivisionError))
        && (timeScale.Some? && timeScale.value != 0.0 && '.' !in outputName ==> outcome == Aborted(IndexError))
    ensures outcome.Saved? <==>
      && numIters > 0
      && FirstFailure(Trials(TrialOn(channel, findPeaks), exchanges[..Iterations(numIters)])) == numIters
      && Numbers.ParseReal(timeScaleReply).Some?
      && Numbers.ParseReal(timeScaleReply).value != 0.0
      && '.' in outputName
    ensures var trials := Trials(TrialOn(channel, findPeaks), exchanges[..Iterations(numIters)]);
      outcome.Saved? ==>
      && |outcome.table| == numIters
      && (forall k :: 0 <= k < numIters ==> trials[k].result == Success(outcome.table[k]))
      && Summarises(outcome.summary, TotalEvents(outcome.table), numIters, Numbers.ParseReal(timeScaleReply).value,
                    frequencyReply)
      && outcome.path !in existing
      && Naming.Resolves(folder, outputName, existing, outcome.path)
  {
    var xs := exchanges[..Iterations(numIters)];
    TrialOnCommands(channel, findPeaks);
    var rows, total;
    trace, rows, total := RunTrials(TrialOn(channel, findPeaks), xs, TrialCommands(channel));
    if rows.Failure? {
      return trace, Aborted(rows.error);
    }
    var tail;
    tail, outcome := Summarise(rows.value, total, outputName, folder, existing, timeScaleReply, frequencyReply);
    trace := trace + tail;
  }

  /** Three trials counting 5, 7 and 6 events average to exactly 6. */
  lemma MeanExample(f: real)
    ensures var rows := [TrialRecord(5, f), TrialRecord(7, f), TrialRecord(6, f)];
      TotalEvents(rows) as real / |rows| as real == 6.0
  {
    var rows := [TrialRecord(5, f), TrialRecord(7, f), TrialRecord(6, f)];
    assert rows[..2] == [TrialRecord(5, f), TrialRecord(7, f)];
    assert rows[..2][..1] == [TrialRecord(5, f)];
    assert TotalEvents([TrialRecord(5, f)]) == 5;
    assert TotalEvents(rows[..2]) == 12;
    assert TotalEvents(rows) == 18;
  }
}
