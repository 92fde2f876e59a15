/**
 * One measurement point and its correlation with the external process log.
 * A `Measurement` is built from the instrument's raw statistics string at the
 * sample instant; `GetLog` then scans the log for the latest concentration and
 * volume lines, checks the age of the concentration line against the
 * staleness threshold and assigns concentration and volume.
 */
module Measurements {
  import opened Wrappers
  import opened Strings
  import opened Clock

  const ConcentrationMarker: string := "Current concentration"
  const VolumeMarker: string := "Current volume"
  /** The text that ends the timestamp at the head of a log line. */
  const StampEnd: string := " ["
  const Newline: string := "\n"
  const FieldSeparator: string := ","

  // ---------------------------------------------------------------------
  // Log scan: the last line holding each marker
  // ---------------------------------------------------------------------

  /** The index of the last line containing `marker`, if any. */
  function LastIndex(lines: seq<string>, marker: string): (r: Option<nat>)
    ensures r.Some? ==> r.value < |lines| && Contains(lines[r.value], marker)
    ensures r.Some? ==> forall j :: r.value < j < |lines| ==> !Contains(lines[j], marker)
    ensures r.None? ==> forall j :: 0 <= j < |lines| ==> !Contains(lines[j], marker)
  {
    if lines == [] then None
    else if Contains(lines[|lines| - 1], marker) then Some(|lines| - 1)
    else LastIndex(lines[..|lines| - 1], marker)
  }

  /** The last line containing `marker`: later lines overwrite earlier matches. */
  function LastLine(lines: seq<string>, marker: string): (r: Option<string>)
    ensures r.Some? ==> Contains(r.value, marker)
  {
    match LastIndex(lines, marker)
    case None => None
    case Some(k) => Some(lines[k])
  }

  /** A line is the last match exactly when it holds the marker and no later line does. */
  lemma LastLineCharacterized(lines: seq<string>, marker: string, k: nat)
    requires k < |lines|
    ensures LastIndex(lines, marker) == Some(k) <==>
              Contains(lines[k], marker) && forall j :: k < j < |lines| ==> !Contains(lines[j], marker)
  {
  }

  /** No line holds the marker exactly when the scan finds nothing. */
  lemma LastLineAbsent(lines: seq<string>, marker: string)
    ensures LastLine(lines, marker).None? <==> forall j :: 0 <= j < |lines| ==> !Contains(lines[j], marker)
  {
  }

  /**
   * The two markers are tracked independently; a single line holding both,
   * with no later line holding either, is the last match for both.
   */
  lemma SharedLastLine(lines: seq<string>, k: nat)
    requires k < |lines|
    requires Contains(lines[k], ConcentrationMarker) && Contains(lines[k], VolumeMarker)
    requires forall j :: k < j < |lines| ==>
               !Contains(lines[j], ConcentrationMarker) && !Contains(lines[j], VolumeMarker)
    ensures LastLine(lines, ConcentrationMarker) == LastLine(lines, VolumeMarker) == Some(lines[k])
  {
    LastLineCharacterized(lines, ConcentrationMarker, k);
    LastLineCharacterized(lines, VolumeMarker, k);
  }

  /** The loop of `getLog` over the lines of the log file. */
  method ScanLog(lines: seq<string>) returns (lastConcentration: Option<string>, lastVolume: Option<string>)
    ensures lastConcentration == LastLine(lines, ConcentrationMarker)
    ensures lastVolume == LastLine(lines, VolumeMarker)
  {
    lastConcentration, lastVolume := None, None;
    for i := 0 to |lines|
      invariant lastConcentration == LastLine(lines[..i], ConcentrationMarker)
      invariant lastVolume == LastLine(lines[..i], VolumeMarker)
    {
      assert lines[..i + 1][..i] == lines[..i];
      if Contains(lines[i], ConcentrationMarker) {
        lastConcentration := Some(lines[i]);
      }
      if Contains(lines[i], VolumeMarker) {
        lastVolume := Some(lines[i]);
      }
    }
    assert lines[..|lines|] == lines;
  }

  // ---------------------------------------------------------------------
  // Timestamp and value extraction
  // ---------------------------------------------------------------------

  /** `line.split(' [')[0]`: the text before the first " [". */
  function StampText(line: string): (t: string)
    ensures !Contains(t, StampEnd)
    ensures Contains(line, StampEnd) ==> |t| + |StampEnd| <= |line| && line[..|t| + |StampEnd|] == t + StampEnd
    ensures !Contains(line, StampEnd) ==> t == line
  {
    var parts := Split(line, StampEnd);
    assert Contains(line, StampEnd) ==> line[..|parts[0]| + |StampEnd|] == parts[0] + StampEnd by {
      if Contains(line, StampEnd) { SplitHead(line, StampEnd); }
    }
    parts[0]
  }

  /**
   * `line.split(marker)[1].split('\n')[0]`: the text after the first
   * occurrence of the marker, up to the next occurrence of the marker or the
   * first newline, whichever comes first. The line holds the marker, so the
   * piece at index 1 exists.
   */
  function ValueText(line: string, marker: string): (t: string)
    requires marker != [] && Contains(line, marker)
    ensures !Contains(t, Newline) && !Contains(t, marker)
    ensures var rest := line[Find(line, marker).value + |marker|..];
            && |t| <= |rest| && t == rest[..|t|]
            && (|t| == |rest| || OccursAt(rest, Newline, |t|) || OccursAt(rest, marker, |t|))
  {
    var i := Find(line, marker).value;
    SplitHead(line, marker);
    FirstFieldStops(line[i + |marker|..], marker);
    Split(Split(line, marker)[1], Newline)[0]
  }

  /**
   * `rest.split(marker)[0].split('\n')[0]` is the prefix of `rest` that stops
   * at its end, at a newline or at the marker, and holds neither.
   */
  lemma FirstFieldStops(rest: string, marker: string)
    requires marker != []
    ensures var t := Split(Split(rest, marker)[0], Newline)[0];
            && !Contains(t, Newline) && !Contains(t, marker)
            && |t| <= |rest| && t == rest[..|t|]
            && (|t| == |rest| || OccursAt(rest, Newline, |t|) || OccursAt(rest, marker, |t|))
  {
    var piece := Split(rest, marker)[0];
    SplitStop(rest, marker);
    var t := Split(piece, Newline)[0];
    SplitStop(piece, Newline);
    if |t| < |piece| {
      OccursInPrefix(rest, Newline, |piece|, |t|);
    }
    NoOccurrenceInPrefix(piece, marker, |t|);
  }

  /**
   * With the marker occurring once, the value text is what follows it up to
   * the newline that ends the line.
   */
  lemma {:induction false} ValueTextOfLine(head: string, marker: string, value: string)
    requires marker != [] && !Contains(marker, Newline)
    requires Find(head + marker + value + Newline, marker) == Some(|head|)
    requires !Contains(value, marker) && !Contains(value, Newline)
    ensures ValueText(head + marker + value + Newline, marker) == value
  {
    var line := head + marker + value + Newline;
    SplitHead(line, marker);
    assert line[|head| + |marker|..] == value + Newline;
    NoMarkerBeforeEnd(marker, value);
    assert Split(value + Newline, marker) == [value + Newline];
    TextBeforeNewline(value);
  }

  /** A marker free of newlines cannot occur in `value + "\n"` unless it occurs in `value`. */
  lemma {:induction false} NoMarkerBeforeEnd(marker: string, value: string)
    requires marker != [] && !Contains(marker, Newline) && !Contains(value, marker)
    ensures !Contains(value + Newline, marker)
  {
    var rest := value + Newline;
    forall j: nat | j <= |rest| ensures !OccursAt(rest, marker, j) {
      if OccursAt(rest, marker, j) {
        if j + |marker| <= |value| {
          assert value[j..j + |marker|] == rest[j..j + |marker|];
          assert OccursAt(value, marker, j);
        } else {
          assert marker[|marker| - 1] == rest[|rest| - 1];
          assert marker[|marker| - 1..] == Newline;
          assert OccursAt(marker, Newline, |marker| - 1);
        }
      }
    }
  }

  /** The text before the first newline of `value + "\n"` is `value` when it has none. */
  lemma {:induction false} TextBeforeNewline(value: string)
    requires !Contains(value, Newline)
    ensures Split(value + Newline, Newline)[0] == value
  {
    var rest := value + Newline;
    assert OccursAt(rest, Newline, |value|);
    var i := Find(rest, Newline).value;
    SplitHead(rest, Newline);
    if i < |value| {
      assert rest[i..i + 1] == value[i..i + 1];
      assert OccursAt(value, Newline, i);
    }
    assert rest[..|value|] == value;
  }

  // ---------------------------------------------------------------------
  // getLog
  // ---------------------------------------------------------------------

  /** What makes `getLog` raise: an unbound line variable or a failed conversion. */
  datatype LogError =
    | NoConcentrationLine   // UnboundLocalError on lastconcentration
    | BadTimestamp          // ValueError from strptime
    | BadConcentration      // ValueError from float(c)
    | NoVolumeLine          // UnboundLocalError on lastvolume
    | BadVolume             // ValueError from float(v)

  /**
   * The end of one `getLog` call: both values assigned, or an exception,
   * together with the concentration already assigned when it was raised.
   */
  datatype GetLogOutcome =
    | Assigned(concentration: real, volume: real)
    | Raised(error: LogError, assignedConcentration: Option<real>)

  /** The age in minutes of the last concentration line, when that line exists and its stamp parses. */
  function LogAge(lines: seq<string>, now: Instant): Option<nat>
  {
    match LastLine(lines, ConcentrationMarker)
    case None => None
    case Some(line) =>
      match ParseTimestamp(StampText(line))
      case None => None
      case Some(date) => Some(Age(date, now))
  }

  /** The fresh branch: both values are read from the text after their markers. */
  function FreshValues(concentrationLine: string, volumeLine: Option<string>): GetLogOutcome
    requires Contains(concentrationLine, ConcentrationMarker)
    requires volumeLine.Some? ==> Contains(volumeLine.value, VolumeMarker)
  {
    match ParseDecimal(ValueText(concentrationLine, ConcentrationMarker))
    case None => Raised(BadConcentration, None)
    case Some(c) =>
      match volumeLine
      case None => Raised(NoVolumeLine, Some(c))
      case Some(line) =>
        match ParseDecimal(ValueText(line, VolumeMarker))
        case None => Raised(BadVolume, Some(c))
        case Some(v) => Assigned(c, v)
  }

  /**
   * The part of `getLog` after the scan: the staleness gate on the
   * concentration line's stamp, then the value extraction.
   */
  function Gate(concentrationLine: Option<string>, volumeLine: Option<string>, now: Instant, timeThreshold: int): GetLogOutcome
    requires concentrationLine.Some? ==> Contains(concentrationLine.value, ConcentrationMarker)
    requires volumeLine.Some? ==> Contains(volumeLine.value, VolumeMarker)
  {
    match concentrationLine
    case None => Raised(NoConcentrationLine, None)
    case Some(line) =>
      match ParseTimestamp(StampText(line))
      case None => Raised(BadTimestamp, None)
      case Some(date) =>
        if Age(date, now) > timeThreshold then Assigned(0.0, 0.0)
        else FreshValues(line, volumeLine)
  }

  /** What `getLog` does given the log's lines, the sample instant and the staleness threshold. */
  function GetLogSpec(lines: seq<string>, now: Instant, timeThreshold: int): GetLogOutcome
  {
    Gate(LastLine(lines, ConcentrationMarker), LastLine(lines, VolumeMarker), now, timeThreshold)
  }

  /** `getLog` fails at once, with nothing assigned, exactly when no line names a concentration. */
  lemma MissingConcentrationRaises(lines: seq<string>, now: Instant, timeThreshold: int)
    ensures GetLogSpec(lines, now, timeThreshold) == Raised(NoConcentrationLine, None) <==>
              forall j :: 0 <= j < |lines| ==> !Contains(lines[j], ConcentrationMarker)
  {
    LastLineAbsent(lines, ConcentrationMarker);
    if LastLine(lines, ConcentrationMarker).Some? {
      var line := LastLine(lines, ConcentrationMarker).value;
      if ParseTimestamp(StampText(line)).Some? {
        var date := ParseTimestamp(StampText(line)).value;
        if Age(date, now) <= timeThreshold {
          FreshValuesNeverMissConcentration(line, LastLine(lines, VolumeMarker));
        }
      }
    }
  }

  lemma FreshValuesNeverMissConcentration(concentrationLine: string, volumeLine: Option<string>)
    requires Contains(concentrationLine, ConcentrationMarker)
    requires volumeLine.Some? ==> Contains(volumeLine.value, VolumeMarker)
    ensures FreshValues(concentrationLine, volumeLine) != Raised(NoConcentrationLine, None)
  {
  }

  /** A concentration line older than the threshold zeroes both values, whatever the volume lines say. */
  lemma StaleZeroesBoth(lines: seq<string>, now: Instant, timeThreshold: int)
    requires LogAge(lines, now).Some? && LogAge(lines, now).value > timeThreshold
    ensures GetLogSpec(lines, now, timeThreshold) == Assigned(0.0, 0.0)
  {
  }

  /** The comparison is strict: an age equal to the threshold still takes the fresh branch. */
  lemma StalenessIsStrict(lines: seq<string>, now: Instant, timeThreshold: int)
    requires LogAge(lines, now) == Some(timeThreshold)
    ensures var line := LastLine(lines, ConcentrationMarker).value;
            GetLogSpec(lines, now, timeThreshold) == FreshValues(line, LastLine(lines, VolumeMarker))
  {
  }

  /**
   * Both values come from the same branch: either both are zero because the
   * log is stale, or both are the numbers after their markers on the last
   * matching lines.
   */
  lemma NeverMixed(lines: seq<string>, now: Instant, timeThreshold: int)
    requires GetLogSpec(lines, now, timeThreshold).Assigned?
    ensures LogAge(lines, now).Some?
    ensures var out := GetLogSpec(lines, now, timeThreshold);
            if LogAge(lines, now).value > timeThreshold then out.concentration == 0.0 && out.volume == 0.0
            else
              && LastLine(lines, VolumeMarker).Some?
              && var cLine, vLine := LastLine(lines, ConcentrationMarker).value, LastLine(lines, VolumeMarker).value;
              && ParseDecimal(ValueText(cLine, ConcentrationMarker)) == Some(out.concentration)
              && ParseDecimal(ValueText(vLine, VolumeMarker)) == Some(out.volume)
  {
    var cl, vl := LastLine(lines, ConcentrationMarker), LastLine(lines, VolumeMarker);
    assert GetLogSpec(lines, now, timeThreshold) == Gate(cl, vl, now, timeThreshold);
    var date := ParseTimestamp(StampText(cl.value)).value;
    assert LogAge(lines, now) == Some(Age(date, now));
    if Age(date, now) <= timeThreshold {
      assert GetLogSpec(lines, now, timeThreshold) == FreshValues(cl.value, vl);
    }
  }

  /** A missing volume line only matters on the fresh branch, after the concentration was assigned. */
  lemma MissingVolumeOnlyWhenFresh(lines: seq<string>, now: Instant, timeThreshold: int)
    ensures GetLogSpec(lines, now, timeThreshold).Raised? &&
            GetLogSpec(lines, now, timeThreshold).error == NoVolumeLine
            <==>
            && LogAge(lines, now).Some? && LogAge(lines, now).value <= timeThreshold
            && LastLine(lines, VolumeMarker).None?
            && ParseDecimal(ValueText(LastLine(lines, ConcentrationMarker).value, ConcentrationMarker)).Some?
  {
    var cl, vl := LastLine(lines, ConcentrationMarker), LastLine(lines, VolumeMarker);
    var out := GetLogSpec(lines, now, timeThreshold);
    assert out == Gate(cl, vl, now, timeThreshold);
    if cl.None? {
      assert out == Raised(NoConcentrationLine, None);
    } else {
      var date := ParseTimestamp(StampText(cl.value));
      if date.None? {
        assert out == Raised(BadTimestamp, None);
      } else {
        assert LogAge(lines, now) == Some(Age(date.value, now));
        if Age(date.value, now) <= timeThreshold {
          assert out == FreshValues(cl.value, vl);
          FreshValuesMissingVolume(cl.value, vl);
        } else {
          assert out == Assigned(0.0, 0.0);
        }
      }
    }
  }

  /** On the fresh branch the volume line is reported missing exactly when the concentration parsed. */
  lemma FreshValuesMissingVolume(concentrationLine: string, volumeLine: Option<string>)
    requires Contains(concentrationLine, ConcentrationMarker)
    requires volumeLine.Some? ==> Contains(volumeLine.value, VolumeMarker)
    ensures var out := FreshValues(concentrationLine, volumeLine);
            out.Raised? && out.error == NoVolumeLine <==>
            volumeLine.None? && ParseDecimal(ValueText(concentrationLine, ConcentrationMarker)).Some?
  {
  }

  /**
   * A concentration line stamped in the same minute as the sample is never
   * stale under a non-negative threshold.
   */
  lemma SameMinuteIsFresh(lines: seq<string>, now: Instant, timeThreshold: int)
    requires timeThreshold >= 0
    requires LastLine(lines, ConcentrationMarker).Some?
    requires StampText(LastLine(lines, ConcentrationMarker).value) == FormatTimestamp(now)
    ensures LogAge(lines, now) == Some(0)
    ensures var line := LastLine(lines, ConcentrationMarker).value;
            GetLogSpec(lines, now, timeThreshold) == FreshValues(line, LastLine(lines, VolumeMarker))
  {
    FormatThenParse(now);
    TruncateWithinMinute(now);
  }

  // ---------------------------------------------------------------------
  // Derived electrical quantities
  // ---------------------------------------------------------------------

  /** The stub values the constructor assigns in place of the parsed electrical fields. */
  const StubCurrent: real := 1.0
  const StubCurrentStd: real := 1.0
  const StubVoltage: real := 1.0
  const StubVoltageStd: real := 1.0

  /** Microsiemens per siemens. */
  const MicroScale: real := 1000000.0

  /** Conductance in microsiemens, `I / V * 10**6`; undefined (a ZeroDivisionError) for zero voltage. */
  function Conductance(current: real, voltage: real): (r: Option<real>)
    ensures r.Some? <==> voltage != 0.0
    ensures r.Some? ==> r.value * voltage == current * MicroScale
  {
    if voltage == 0.0 then None else Some(current / voltage * MicroScale)
  }

  /** The scale as written, `10^6`: Python's `^` is exclusive or, not a power. */
  const MicroScaleAsWritten: int := ((10 as bv8) ^ (6 as bv8)) as int

  /** The conductance as written, scaled by `10^6`. */
  function ConductanceAsWritten(current: real, voltage: real): (r: Option<real>)
    ensures r.Some? <==> voltage != 0.0
    ensures r.Some? ==> r.value * voltage == current * MicroScaleAsWritten as real
  {
    if voltage == 0.0 then None else Some(current / voltage * MicroScaleAsWritten as real)
  }

  /** With the stub fields the recorded conductance is 12, not one million. */
  lemma ConductanceAsWrittenOfStubs()
    ensures MicroScaleAsWritten == 12
    ensures ConductanceAsWritten(StubCurrent, StubVoltage) == Some(12.0)
    ensures Conductance(StubCurrent, StubVoltage) == Some(1000000.0)
  {
  }

  // ---------------------------------------------------------------------
  // The measurement object
  // ---------------------------------------------------------------------

  class Measurement {
    var timestamp: Instant
    var timestring: string
    /** The raw statistics response split at its commas. */
    var fields: seq<string>
    var currentMean: real
    var currentStd: real
    var voltageMean: real
    var voltageStd: real
    var conductivity: real
    /** The voltage noise figure the acceptance test reads (`V2std`). */
    var voltageNoise: real
    /** The current noise figure the acceptance test reads (`diffrms`). */
    var currentNoise: real
    /** None until `GetLog` assigns it. */
    var concentration: Option<real>
    var volume: Option<real>

    /** The state the constructor leaves: taken at `now`, stub electrical values, the given noise figures. */
    ghost predicate TakenAt(now: Instant, voltageNoise: real, currentNoise: real)
      reads this`timestamp, this`timestring, this`currentMean, this`currentStd
      reads this`voltageMean, this`voltageStd, this`conductivity, this`voltageNoise, this`currentNoise
    {
      && timestamp == now && timestring == FormatTimestamp(now)
      && currentMean == StubCurrent && currentStd == StubCurrentStd
      && voltageMean == StubVoltage && voltageStd == StubVoltageStd
      && Conductance(currentMean, voltageMean) == Some(conductivity)
      && this.voltageNoise == voltageNoise && this.currentNoise == currentNoise
    }

    /**
     * `measurement(results)` taken at instant `now`: the response is split at
     * its commas, the electrical fields get their stub values and the noise
     * figures are the ones given.
     */
    constructor (now: Instant, results: string, voltageNoise: real, currentNoise: real)
      ensures TakenAt(now, voltageNoise, currentNoise)
      ensures timestamp == now && timestring == FormatTimestamp(now)
      ensures fields == Split(results, FieldSeparator)
      ensures currentMean == StubCurrent && currentStd == StubCurrentStd
      ensures voltageMean == StubVoltage && voltageStd == StubVoltageStd
      ensures Conductance(currentMean, voltageMean) == Some(conductivity)
      ensures this.voltageNoise == voltageNoise && this.currentNoise == currentNoise
      ensures concentration.None? && volume.None?
    {
      timestamp := now;
      timestring := FormatTimestamp(now);
      fields := Split(results, FieldSeparator);
      currentMean, currentStd := StubCurrent, StubCurrentStd;
      voltageMean, voltageStd := StubVoltage, StubVoltageStd;
      conductivity := StubCurrent / StubVoltage * MicroScale;
      this.voltageNoise, this.currentNoise := voltageNoise, currentNoise;
      concentration, volume := None, None;
    }

    /**
     * `getLog`: scan the log, gate on the age of the concentration line, and
     * assign concentration and volume, or raise. On the fresh branch the
     * concentration is assigned before the volume line is looked at, so an
     * exception about the volume leaves the new concentration in place.
     */
    method GetLog(lines: seq<string>, timeThreshold: int) returns (outcome: GetLogOutcome)
      modifies this`concentration, this`volume
      ensures unchanged(this`timestamp, this`timestring, this`currentMean, this`currentStd)
      ensures unchanged(this`voltageMean, this`voltageStd, this`conductivity, this`voltageNoise, this`currentNoise)
      ensures outcome == GetLogSpec(lines, timestamp, timeThreshold)
      ensures outcome.Assigned? ==> concentration == Some(outcome.concentration) && volume == Some(outcome.volume)
      ensures outcome.Raised? ==> volume == old(volume)
      ensures outcome.Raised? ==>
                concentration == if outcome.assignedConcentration.Some? then outcome.assignedConcentration
                                 else old(concentration)
    {
      var lastConcentration, lastVolume := ScanLog(lines);
      if lastConcentration.None? {
        return Raised(NoConcentrationLine, None);
      }
      var date := ParseTimestamp(StampText(lastConcentration.value));
      if date.None? {
        return Raised(BadTimestamp, None);
      }
      var age := Age(date.value, timestamp);
      if age > timeThreshold {
        concentration, volume := Some(0.0), Some(0.0);
        outcome := Assigned(0.0, 0.0);
      } else {
        var c := ParseDecimal(ValueText(lastConcentration.value, ConcentrationMarker));
        if c.None? {
          return Raised(BadConcentration, None);
        }
        concentration := Some(c.value);
        if lastVolume.None? {
          return Raised(NoVolumeLine, Some(c.value));
        }
        var v := ParseDecimal(ValueText(lastVolume.value, VolumeMarker));
        if v.None? {
          return Raised(BadVolume, Some(c.value));
        }
        volume := Some(v.value);
        outcome := Assigned(c.value, v.value);
      }
    }
  }
}
