/**
 * The acquisition loop of `main`: each cycle takes a measurement (from the
 * instrument, or from the offline literal when none is connected),
 * correlates it with the process log, and either records one row and
 * stops measuring (`step_done`), or backs off and tries again.
 */
module Acquisition {
  import opened Wrappers
  import opened Clock
  import opened ResultSink
  import opened Measurements

  /** The run's thresholds: noise (`STDthres`), minimum volume (`VOLthres`), staleness in minutes (`TIMEthres`). */
  datatype Config = Config(stdThreshold: real, volumeThreshold: real, timeThreshold: int)

  /** The values the script is configured with. */
  const SourceConfig: Config := Config(150.0, 30.0, 10000)

  /** Seconds slept after arming the instrument's statistics, before querying them. */
  const SettleDelay: nat := 20
  /** Seconds slept after a sample is rejected by the thresholds. */
  const RetryDelay: nat := 10
  /** Seconds slept when concentration or volume is missing (`offset`). */
  const LongBackoff: nat := 300

  /** The reading used when no instrument is connected. */
  const OfflineReading: string := "1,2,3,4,5,6,7,8,9,10,11,12,13,14,15,16,17,18,19,20,21"

  /** What one cycle receives from outside: the instrument's answer, the clock, the log and the two noise figures. */
  datatype CycleInput = CycleInput(reading: string, now: Instant, log: seq<string>,
                                   voltageNoise: real, currentNoise: real)

  // ---------------------------------------------------------------------
  // Acceptance
  // ---------------------------------------------------------------------

  /** A sample is kept when the volume reaches the threshold and both noise figures stay below theirs. */
  predicate Accepts(volume: real, voltageNoise: real, currentNoise: real, cfg: Config)
  {
    volume >= cfg.volumeThreshold && voltageNoise < cfg.stdThreshold && currentNoise < cfg.stdThreshold
  }

  /** The volume bound is inclusive; below it the sample is rejected whatever the noise. */
  lemma AcceptanceBoundary(volume: real, voltageNoise: real, currentNoise: real, cfg: Config)
    ensures volume < cfg.volumeThreshold ==> !Accepts(volume, voltageNoise, currentNoise, cfg)
    ensures voltageNoise < cfg.stdThreshold && currentNoise < cfg.stdThreshold ==>
              Accepts(cfg.volumeThreshold, voltageNoise, currentNoise, cfg)
  {
  }

  datatype AttributeError = MissingNoiseAttribute

  /**
   * The test as written reads `m.V2std` and `m.diffrms`, which no code ever
   * assigns: when the volume check passes, evaluating them raises; when it
   * fails, `and` stops before them and the sample is rejected.
   */
  function AcceptsAsWritten(volume: real, cfg: Config): (r: Result<bool, AttributeError>)
  {
    if volume >= cfg.volumeThreshold then Failure(MissingNoiseAttribute) else Success(false)
  }

  // ---------------------------------------------------------------------
  // One cycle and a run of cycles
  // ---------------------------------------------------------------------

  /** The dictionary `main` builds for an accepted sample taken at `now`. */
  function RowFor(concentration: real, volume: real, now: Instant): Row
  {
    MakeRow(concentration, volume, StubVoltage, StubVoltageStd, StubCurrent, StubCurrentStd,
            Conductance(StubCurrent, StubVoltage).value, FormatTimestamp(now))
  }

  /** The line that dictionary becomes in the results file. */
  function RecordFor(concentration: real, volume: real, now: Instant): Record
  {
    MakeRecord(concentration, volume, StubVoltage, StubVoltageStd, StubCurrent, StubCurrentStd,
               Conductance(StubCurrent, StubVoltage).value, FormatTimestamp(now))
  }

  /** The exceptions that end the script. */
  datatype ScriptError =
    | LogFailed(log: LogError)              // raised by `getLog`
    | AttributeFailed(attr: AttributeError) // `m.V2std` in the acceptance test as written
    | AppendFailed(open: SinkError)         // `open` in `appendRow` as written
    | RecordRejected(csv: CsvError)         // the csv writer refusing a dictionary

  /**
   * The loop's visible state: the lines appended to the results file, the
   * sleeps taken, `step_done`, and the exception that ended the script, if any.
   */
  datatype LoopState = LoopState(rows: seq<Record>, delays: seq<nat>, stepDone: bool, crash: Option<ScriptError>)

  const Start: LoopState := LoopState([], [], false, None)

  /** One pass through the body of `while True`. */
  function Step(connected: bool, s: LoopState, input: CycleInput, cfg: Config): LoopState
  {
    if s.crash.Some? || s.stepDone then s
    else
      var settled := s.(delays := s.delays + (if connected then [SettleDelay] else []));
      AfterLog(settled, GetLogSpec(input.log, input.now, cfg.timeThreshold), input, cfg)
  }

  /** The rest of a cycle once `getLog` has returned or raised. */
  function AfterLog(s: LoopState, outcome: GetLogOutcome, input: CycleInput, cfg: Config): LoopState
  {
    match outcome
    case Raised(e, _) => s.(crash := Some(LogFailed(e)))
    case Assigned(c, v) =>
      if Accepts(v, input.voltageNoise, input.currentNoise, cfg)
      then s.(rows := s.rows + [RecordFor(c, v, input.now)], stepDone := true)
      else s.(delays := s.delays + [RetryDelay], stepDone := false)
  }

  /** A cycle that measures is the settle delay, if any, followed by what the log decides. */
  lemma StepAfterLog(connected: bool, s: LoopState, input: CycleInput, cfg: Config, settled: LoopState)
    requires s.crash.None? && !s.stepDone
    requires settled == s.(delays := s.delays + (if connected then [SettleDelay] else []))
    ensures Step(connected, s, input, cfg)
            == AfterLog(settled, GetLogSpec(input.log, input.now, cfg.timeThreshold), input, cfg)
  {
  }

  /** The loop run over a sequence of cycles, starting from state `s`. */
  function RunFrom(connected: bool, s: LoopState, cycles: seq<CycleInput>, cfg: Config): LoopState
    decreases |cycles|
  {
    if cycles == [] then s
    else RunFrom(connected, Step(connected, s, cycles[0], cfg), cycles[1..], cfg)
  }

  /** After a crash, or once `step_done` is set, nothing is measured, slept or appended any more. */
  lemma {:induction false} RunFromHalted(connected: bool, s: LoopState, cycles: seq<CycleInput>, cfg: Config)
    requires s.crash.Some? || s.stepDone
    ensures RunFrom(connected, s, cycles, cfg) == s
    decreases |cycles|
  {
    if cycles != [] {
      RunFromHalted(connected, s, cycles[1..], cfg);
    }
  }

  /**
   * The results file only grows, by at most one row over the whole run, and
   * it grows exactly when the run sets `step_done`.
   */
  lemma {:induction false} AtMostOneRow(connected: bool, s: LoopState, cycles: seq<CycleInput>, cfg: Config)
    ensures var t := RunFrom(connected, s, cycles, cfg);
            && |s.rows| <= |t.rows| <= |s.rows| + 1
            && t.rows[..|s.rows|] == s.rows
            && (|t.rows| == |s.rows| + 1 <==> !s.stepDone && t.stepDone)
    decreases |cycles|
  {
    if cycles != [] {
      var s' := Step(connected, s, cycles[0], cfg);
      AtMostOneRow(connected, s', cycles[1..], cfg);
      if s'.stepDone && !s.stepDone {
        RunFromHalted(connected, s', cycles[1..], cfg);
      }
    }
  }

  /**
   * Every sleep the loop takes is the settle time or the short retry: the
   * long back-off is never reached, because `getLog` either raises or
   * assigns both values.
   */
  lemma {:induction false} NoLongBackoff(connected: bool, s: LoopState, cycles: seq<CycleInput>, cfg: Config)
    ensures var t := RunFrom(connected, s, cycles, cfg);
            && |s.delays| <= |t.delays| && t.delays[..|s.delays|] == s.delays
            && forall k :: |s.delays| <= k < |t.delays| ==> t.delays[k] == SettleDelay || t.delays[k] == RetryDelay
    decreases |cycles|
  {
    if cycles != [] {
      var s' := Step(connected, s, cycles[0], cfg);
      StepSleeps(connected, s, cycles[0], cfg);
      NoLongBackoff(connected, s', cycles[1..], cfg);
      var t := RunFrom(connected, s', cycles[1..], cfg);
      assert t.delays[..|s.delays|] == s'.delays[..|s.delays|];
      forall k | |s.delays| <= k < |s'.delays|
        ensures t.delays[k] == SettleDelay || t.delays[k] == RetryDelay
      {
        assert t.delays[k] == s'.delays[k];
      }
    }
  }

  /** One cycle only adds sleeps, and only the settle time and the short retry. */
  lemma StepSleeps(connected: bool, s: LoopState, input: CycleInput, cfg: Config)
    ensures var t := Step(connected, s, input, cfg);
            && |s.delays| <= |t.delays| && t.delays[..|s.delays|] == s.delays
            && forall k :: |s.delays| <= k < |t.delays| ==> t.delays[k] == SettleDelay || t.delays[k] == RetryDelay
  {
    if s.crash.None? && !s.stepDone {
      var added := if connected then [SettleDelay] else [];
      var settled := s.(delays := s.delays + added);
      var t := AfterLog(settled, GetLogSpec(input.log, input.now, cfg.timeThreshold), input, cfg);
      assert t.delays == settled.delays || t.delays == settled.delays + [RetryDelay];
    }
  }

  /**
   * An accepted cycle appends exactly one line, the one the csv writer makes
   * of the sample's dictionary, with the concentration, volume and printed
   * instant under their columns, and sets `step_done`.
   */
  lemma AcceptedCycleRecords(connected: bool, s: LoopState, input: CycleInput, cfg: Config, c: real, v: real)
    requires s.crash.None? && !s.stepDone
    requires GetLogSpec(input.log, input.now, cfg.timeThreshold) == Assigned(c, v)
    requires Accepts(v, input.voltageNoise, input.currentNoise, cfg)
    ensures var t := Step(connected, s, input, cfg);
            && t.stepDone && t.crash.None?
            && |t.rows| == |s.rows| + 1 && t.rows[..|s.rows|] == s.rows
            && DictRecord(RowFor(c, v, input.now)) == Success(t.rows[|s.rows|])
            && |t.rows[|s.rows|]| == |FieldNames|
            && t.rows[|s.rows|][0] == Number(c) && t.rows[|s.rows|][1] == Number(v)
            && t.rows[|s.rows|][7] == Text(FormatTimestamp(input.now))
            && t.delays == s.delays + (if connected then [SettleDelay] else [])
  {
    var settled := s.(delays := s.delays + (if connected then [SettleDelay] else []));
    StepAfterLog(connected, s, input, cfg, settled);
    var t, rec := Step(connected, s, input, cfg), RecordFor(c, v, input.now);
    assert t.rows == s.rows + [rec];
    assert t.rows[|s.rows|] == rec;
    assert rec[0] == Number(c) && rec[1] == Number(v) && rec[7] == Text(FormatTimestamp(input.now));
    RowForRecord(c, v, input.now);
  }

  /** The csv writer accepts the sample's dictionary and writes its values in header order. */
  lemma RowForRecord(c: real, v: real, now: Instant)
    ensures DictRecord(RowFor(c, v, now)) == Success(RecordFor(c, v, now))
  {
    MakeRowRecord(c, v, StubVoltage, StubVoltageStd, StubCurrent, StubCurrentStd,
                  Conductance(StubCurrent, StubVoltage).value, FormatTimestamp(now));
  }

  /** A rejected cycle appends nothing, leaves `step_done` unset and sleeps the short retry. */
  lemma RejectedCycleRetries(connected: bool, s: LoopState, input: CycleInput, cfg: Config, c: real, v: real)
    requires s.crash.None? && !s.stepDone
    requires GetLogSpec(input.log, input.now, cfg.timeThreshold) == Assigned(c, v)
    requires !Accepts(v, input.voltageNoise, input.currentNoise, cfg)
    ensures var t := Step(connected, s, input, cfg);
            && t.rows == s.rows && !t.stepDone && t.crash.None?
            && t.delays == s.delays + (if connected then [SettleDelay] else []) + [RetryDelay]
  {
  }

  /**
   * When `getLog` raises (a missing line, a bad stamp or number) the
   * exception ends the script: no line is written and no retry is slept.
   */
  lemma RaisedCycleCrashes(connected: bool, s: LoopState, input: CycleInput, cfg: Config,
                           e: LogError, partial: Option<real>)
    requires s.crash.None? && !s.stepDone
    requires GetLogSpec(input.log, input.now, cfg.timeThreshold) == Raised(e, partial)
    ensures var t := Step(connected, s, input, cfg);
            && t.rows == s.rows && !t.stepDone && t.crash == Some(LogFailed(e))
            && t.delays == s.delays + (if connected then [SettleDelay] else [])
            && forall later :: RunFrom(connected, t, later, cfg) == t
  {
    var t := Step(connected, s, input, cfg);
    forall later ensures RunFrom(connected, t, later, cfg) == t {
      RunFromHalted(connected, t, later, cfg);
    }
  }

  /**
   * A stale log zeroes the volume, so under a positive volume threshold the
   * cycle is rejected and takes the short retry, not the long back-off.
   */
  lemma StaleCycleRetries(connected: bool, s: LoopState, input: CycleInput, cfg: Config)
    requires s.crash.None? && !s.stepDone && cfg.volumeThreshold > 0.0
    requires LogAge(input.log, input.now).Some? && LogAge(input.log, input.now).value > cfg.timeThreshold
    ensures var t := Step(connected, s, input, cfg);
            && t.rows == s.rows && !t.stepDone && t.crash.None?
            && t.delays == s.delays + (if connected then [SettleDelay] else []) + [RetryDelay]
  {
    StaleZeroesBoth(input.log, input.now, cfg.timeThreshold);
    RejectedCycleRetries(connected, s, input, cfg, 0.0, 0.0);
  }

  // ---------------------------------------------------------------------
  // The script as written
  // ---------------------------------------------------------------------

  /**
   * The rest of a cycle as the script is written, with its own thresholds:
   * the acceptance test reads the never-assigned `m.V2std`, and `appendRow`
   * passes csv keywords to `open`. With `noiseFixed` only the acceptance test
   * is corrected (it compares the noise figures); `appendRow` stays as written.
   */
  function AfterLogAsWritten(s: LoopState, outcome: GetLogOutcome, input: CycleInput, noiseFixed: bool): LoopState
  {
    match outcome
    case Raised(e, _) => s.(crash := Some(LogFailed(e)))
    case Assigned(c, v) =>
      var decision := if noiseFixed then Success(Accepts(v, input.voltageNoise, input.currentNoise, SourceConfig))
                      else AcceptsAsWritten(v, SourceConfig);
      match decision
      case Failure(a) => s.(crash := Some(AttributeFailed(a)))
      case Success(accepted) =>
        if !accepted then s.(delays := s.delays + [RetryDelay], stepDone := false)
        else
          match AppendRowAsWritten
          case Failure(t) => s.(crash := Some(AppendFailed(t)))
          case Success(rows) => s.(rows := rows, stepDone := true)
  }

  /** One pass through the body of `while True` as written. */
  function StepAsWritten(connected: bool, s: LoopState, input: CycleInput, noiseFixed: bool): LoopState
  {
    if s.crash.Some? || s.stepDone then s
    else
      var settled := s.(delays := s.delays + (if connected then [SettleDelay] else []));
      AfterLogAsWritten(settled, GetLogSpec(input.log, input.now, SourceConfig.timeThreshold), input, noiseFixed)
  }

  /** The loop as written over a sequence of cycles. */
  function RunAsWritten(connected: bool, s: LoopState, cycles: seq<CycleInput>, noiseFixed: bool): LoopState
    decreases |cycles|
  {
    if cycles == [] then s
    else RunAsWritten(connected, StepAsWritten(connected, s, cycles[0], noiseFixed), cycles[1..], noiseFixed)
  }

  /**
   * As written, no run ever writes a line below the header or sets
   * `step_done`, whether or not the acceptance test is corrected: `appendRow`
   * alone already stops every row.
   */
  lemma {:induction false} AsWrittenNeverRecords(connected: bool, s: LoopState, cycles: seq<CycleInput>, noiseFixed: bool)
    ensures var t := RunAsWritten(connected, s, cycles, noiseFixed);
            t.rows == s.rows && t.stepDone == s.stepDone
    decreases |cycles|
  {
    if cycles != [] {
      var s' := StepAsWritten(connected, s, cycles[0], noiseFixed);
      if s.crash.None? && !s.stepDone {
        var settled := s.(delays := s.delays + (if connected then [SettleDelay] else []));
        var outcome := GetLogSpec(cycles[0].log, cycles[0].now, SourceConfig.timeThreshold);
        assert s' == AfterLogAsWritten(settled, outcome, cycles[0], noiseFixed);
        AfterLogAsWrittenKeepsRows(settled, outcome, cycles[0], noiseFixed);
      }
      AsWrittenNeverRecords(connected, s', cycles[1..], noiseFixed);
    }
  }

  /** Whatever `getLog` gives, the rest of a cycle as written neither writes nor sets `step_done`. */
  lemma AfterLogAsWrittenKeepsRows(s: LoopState, outcome: GetLogOutcome, input: CycleInput, noiseFixed: bool)
    requires !s.stepDone
    ensures var t := AfterLogAsWritten(s, outcome, input, noiseFixed);
            t.rows == s.rows && !t.stepDone
  {
  }

  /** After a crash the loop as written does nothing more. */
  lemma {:induction false} RunAsWrittenHalted(connected: bool, s: LoopState, cycles: seq<CycleInput>, noiseFixed: bool)
    requires s.crash.Some? || s.stepDone
    ensures RunAsWritten(connected, s, cycles, noiseFixed) == s
    decreases |cycles|
  {
    if cycles != [] {
      RunAsWrittenHalted(connected, s, cycles[1..], noiseFixed);
    }
  }

  /**
   * As written, the first cycle whose volume reaches `VOLthres` ends the
   * script with an AttributeError and writes nothing, whatever cycles
   * follow, where the corrected loop records a sample of acceptable noise.
   */
  lemma AsWrittenFullVolumeCrashes(connected: bool, s: LoopState, input: CycleInput, c: real, v: real)
    requires s.crash.None? && !s.stepDone
    requires GetLogSpec(input.log, input.now, SourceConfig.timeThreshold) == Assigned(c, v)
    requires v >= SourceConfig.volumeThreshold
    ensures var t := StepAsWritten(connected, s, input, false);
            t.crash == Some(AttributeFailed(MissingNoiseAttribute)) && t.rows == s.rows
    ensures forall later :: RunAsWritten(connected, s, [input] + later, false)
                            == StepAsWritten(connected, s, input, false)
    ensures Accepts(v, input.voltageNoise, input.currentNoise, SourceConfig) ==>
              |Step(connected, s, input, SourceConfig).rows| == |s.rows| + 1
  {
    var t := StepAsWritten(connected, s, input, false);
    forall later ensures RunAsWritten(connected, s, [input] + later, false) == t {
      assert ([input] + later)[1..] == later;
      RunAsWrittenHalted(connected, t, later, false);
    }
  }

  /**
   * As written, a volume below `VOLthres` never reaches the missing noise
   * attributes: the cycle is rejected and takes the short retry, exactly as
   * the corrected loop does.
   */
  lemma AsWrittenLowVolumeRetries(connected: bool, s: LoopState, input: CycleInput, c: real, v: real)
    requires s.crash.None? && !s.stepDone
    requires GetLogSpec(input.log, input.now, SourceConfig.timeThreshold) == Assigned(c, v)
    requires v < SourceConfig.volumeThreshold
    ensures var t := StepAsWritten(connected, s, input, false);
            && t.crash.None? && t.rows == s.rows && !t.stepDone
            && t.delays == s.delays + (if connected then [SettleDelay] else []) + [RetryDelay]
            && t == Step(connected, s, input, SourceConfig)
  {
  }

  /**
   * With the acceptance test corrected, an accepted sample still ends the
   * script, now with `appendRow`'s TypeError, where the corrected loop
   * appends the sample's line.
   */
  lemma AsWrittenAcceptedCrashes(connected: bool, s: LoopState, input: CycleInput, c: real, v: real)
    requires s.crash.None? && !s.stepDone
    requires GetLogSpec(input.log, input.now, SourceConfig.timeThreshold) == Assigned(c, v)
    requires Accepts(v, input.voltageNoise, input.currentNoise, SourceConfig)
    ensures var t := StepAsWritten(connected, s, input, true);
            t.crash == Some(AppendFailed(TypeError)) && t.rows == s.rows
    ensures Step(connected, s, input, SourceConfig).rows == s.rows + [RecordFor(c, v, input.now)]
  {
  }

  // ---------------------------------------------------------------------
  // main
  // ---------------------------------------------------------------------

  /**
   * One pass through the body of `while True` on the live objects: arm the
   * instrument and wait, take the measurement, then read the log and record.
   */
  method Cycle(connected: bool, results: ResultsFile, delays: seq<nat>, stepDone: bool,
               input: CycleInput, cfg: Config)
    returns (delays': seq<nat>, stepDone': bool, crash: Option<ScriptError>)
    modifies results
    ensures results.header == old(results.header)
    ensures LoopState(results.records, delays', stepDone', crash)
            == Step(connected, LoopState(old(results.records), delays, stepDone, None), input, cfg)
  {
    delays', stepDone', crash := delays, stepDone, None;
    if !stepDone {
      var reading := OfflineReading;
      if connected {
        delays' := delays' + [SettleDelay];
        reading := input.reading;
      }
      var m := new Measurement(input.now, reading, input.voltageNoise, input.currentNoise);
      StepAfterLog(connected, LoopState(results.records, delays, false, None), input, cfg,
                   LoopState(results.records, delays', false, None));
      delays', stepDone', crash := Attempt(results, m, delays', input, cfg);
    }
  }

  /** `m.getLog()` followed by the rest of the body. */
  method Attempt(results: ResultsFile, m: Measurement, delays: seq<nat>, input: CycleInput, cfg: Config)
    returns (delays': seq<nat>, stepDone': bool, crash: Option<ScriptError>)
    requires m.TakenAt(input.now, input.voltageNoise, input.currentNoise)
    modifies results, m`concentration, m`volume
    ensures results.header == old(results.header)
    ensures LoopState(results.records, delays', stepDone', crash)
            == AfterLog(LoopState(old(results.records), delays, false, None),
                        GetLogSpec(input.log, input.now, cfg.timeThreshold), input, cfg)
  {
    var outcome := m.GetLog(input.log, cfg.timeThreshold);
    delays', stepDone', crash := Record(results, m, outcome, delays, input, cfg);
  }

  /**
   * What the body does after `getLog`: stop on the exception, append the
   * row of an accepted sample and set `step_done`, or sleep and retry.
   */
  method Record(results: ResultsFile, m: Measurement, outcome: GetLogOutcome, delays: seq<nat>,
                input: CycleInput, cfg: Config)
    returns (delays': seq<nat>, stepDone': bool, crash: Option<ScriptError>)
    requires m.TakenAt(input.now, input.voltageNoise, input.currentNoise)
    requires outcome.Assigned? ==> m.concentration == Some(outcome.concentration) && m.volume == Some(outcome.volume)
    modifies results
    ensures results.header == old(results.header)
    ensures LoopState(results.records, delays', stepDone', crash)
            == AfterLog(LoopState(old(results.records), delays, false, None), outcome, input, cfg)
  {
    delays', stepDone', crash := delays, false, None;
    if outcome.Raised? {
      crash := Some(LogFailed(outcome.error));
    } else if m.concentration.Some? && m.volume.Some? {
      if Accepts(m.volume.value, m.voltageNoise, m.currentNoise, cfg) {
        var row := MakeRow(m.concentration.value, m.volume.value, m.voltageMean, m.voltageStd,
                           m.currentMean, m.currentStd, m.conductivity, m.timestring);
        MakeRowRecord(m.concentration.value, m.volume.value, m.voltageMean, m.voltageStd,
                      m.currentMean, m.currentStd, m.conductivity, m.timestring);
        var error := results.AppendRow(row);
        match error
        case Some(e) =>
          crash := Some(RecordRejected(e));
        case None =>
          stepDone' := true;
      } else {
        delays' := delays' + [RetryDelay];
        stepDone' := false;
      }
    } else {
      delays' := delays' + [LongBackoff];
      stepDone' := false;
    }
  }

  /**
   * `main` over the given cycles: create the results file with its header,
   * then run the loop until the cycles are used up or `getLog` raises.
   * `connected` says whether `connectOsci` found an instrument.
   */
  method Acquire(connected: bool, cycles: seq<CycleInput>, cfg: Config)
    returns (results: ResultsFile, delays: seq<nat>, stepDone: bool, crash: Option<ScriptError>)
    ensures fresh(results) && results.header == FieldNames
    ensures LoopState(results.records, delays, stepDone, crash) == RunFrom(connected, Start, cycles, cfg)
  {
    results := new ResultsFile.InitOutput();
    delays, stepDone, crash := [], false, None;
    var i := 0;
    while i < |cycles| && crash.None?
      invariant 0 <= i <= |cycles|
      invariant fresh(results) && results.header == FieldNames
      invariant RunFrom(connected, LoopState(results.records, delays, stepDone, crash), cycles[i..], cfg)
                == RunFrom(connected, Start, cycles, cfg)
    {
      assert cycles[i..][1..] == cycles[i + 1..];
      delays, stepDone, crash := Cycle(connected, results, delays, stepDone, cycles[i], cfg);
      i := i + 1;
    }
    if crash.Some? {
      RunFromHalted(connected, LoopState(results.records, delays, stepDone, crash), cycles[i..], cfg);
    } else {
      assert cycles[i..] == [];
    }
  }
}
