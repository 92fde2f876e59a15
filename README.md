# 4probe acquisition core in Dafny

This project models the acquisition–validation–persistence loop of the
`4probe.py` calibration script. Each cycle arms the oscilloscope's
statistics, or uses a fixed offline reading when no instrument is
connected, and builds a `measurement` stamped with the current instant.
Then:

- `getLog` scans the process log (`InVitroApp.txt`) for the last
  `Current concentration` and `Current volume` lines and compares the
  concentration line's `DD/MM/YYYY HH:MM` stamp with the sample instant.
- When the distance between the stamp and the sample instant, truncated to
  whole minutes, exceeds `TIMEthres` (so it is at least `TIMEthres + 1`
  minutes), both values are set to zero. The distance is absolute, so a stamp
  far in the future zeroes them too. Otherwise the values are read from the text
  after the markers.
- `main` accepts the sample when the volume reaches `VOLthres` and both
  noise figures stay below `STDthres`. An accepted sample is written as one
  line of the results CSV and `step_done` is set. A rejected sample costs a
  10-second retry.

As written, the script never writes a line below the header. The acceptance
test at `4probe.py:176` raises `AttributeError` as soon as the volume reaches
`VOLthres`, and `appendRow` at `4probe.py:145` raises `TypeError` on every
call (see Findings). The functions `StepAsWritten` and `RunAsWritten` model
the loop as written, and the lemmas about them prove that no run of it
records a sample. `Step`, `RunFrom`, the methods `Acquire`, `Cycle`,
`Attempt` and `Record`, `ResultsFile.AppendRow`, `Conductance`, the
`Measurement` constructor, and `RowFor` and `RecordFor` (whose conductance
column is the corrected 10⁶ scale) model the corrected script, which is what the rest of the model states properties of.

Modules, one per component:

- `Wrappers`: `Option` and `Result`.
- `Strings`: Python's `in`, `str.find` and `str.split` with a non-empty
  separator, `str.strip` on ASCII whitespace, and `float()` on plain
  decimal literals.
- `Clock`: `datetime` instants and the proleptic day ordinal. Also
  `strftime` and `strptime` with `'%d/%m/%Y %H:%M'`, and the whole-minute age
  `int(abs((a - b).total_seconds()) / 60)`.
- `Measurements`: the log scan (`ScanLog`), the stamp and value extraction,
  `GetLogSpec` (what `getLog` does, as a function), the staleness gate, the
  conductance, and the class `Measurement` with its constructor and
  `GetLog`.
- `ResultSink`: the column list, the dictionary built for an accepted
  sample, the line `csv.DictWriter` makes of a dictionary (`DictRecord`),
  and the class `ResultsFile` for `initOutput`, `appendRow` and
  `writeResultsAll`.
- `Acquisition`: the thresholds, acceptance, one loop cycle (`Step`) and a
  run of cycles (`RunFrom`) as functions, and the same loop as written. It
  also holds the imperative loop `Acquire` (`main`), with `Cycle`, `Attempt`
  and `Record` as the parts of its body, each proved equal to the
  corresponding function.

The outside world enters as parameters:

- whether an instrument was found;
- per cycle, the instrument's answer, the clock reading, the log's lines
  (as `readlines` returns them) and the two noise figures;
- the configuration. `SourceConfig` holds the script's values 150, 30 and
  10000; the loop as written uses it, and the corrected loop takes any
  configuration.

Sleeps are recorded as a list of delays instead of being taken. An exception
that ends the script becomes the `crash` field of the loop state.

Where the documented design and the code differ, the model follows the code:

- A stale log entry zeroes both values instead of nulling them. The sample is
  then rejected on volume and takes the short 10-second retry, not a longer
  back-off.
- A missing concentration line, an unparsable stamp, or (on the fresh
  branch only) a missing volume line or an unparsable number raises and ends
  the script. A missing volume line on the stale branch raises nothing: both
  values are zeroed.
- An accepted sample is not followed by a cycle-complete delay. The loop
  stops measuring for good (`step_done`).
- The electrical fields are fixed stubs (`I = Istd = V = Vstd = 1`). The raw
  response is split at commas but never read, so a short or non-numeric
  response causes no error.
- Whether an instrument is connected is decided once, before the loop.

## Model

| member | source | states |
|---|---|---|
| `Strings.Find` | 4probe.py:63 | `m in s`: a position is found exactly when `m` occurs, and it is the first occurrence |
| `Strings.Split` | 4probe.py:42 | `s.split(sep)`: the pieces joined with `sep` give back `s`, no piece contains `sep`, there are two or more pieces exactly when `sep` occurs, and the first piece is a prefix of `s`; where the first cut falls is stated by `SplitHead` |
| `Strings.SplitHead` | 4probe.py:42 | when `sep` occurs, the first piece is the text before its leftmost occurrence and the other pieces are the split of the text after it, as `str.split` cuts left to right, even where `sep` can overlap itself |
| `Strings.ParseDecimalOfLiteral` | 4probe.py:79-81 | `float()` reads any decimal literal with a point (optional sign, digits, point, digits, at least one digit) as the signed number it denotes |
| `Strings.ParseDecimalOfWhole` | 4probe.py:79-81 | `float()` reads any literal of an optional sign and one or more digits as the signed whole number it denotes |
| `Strings.ParseDecimalIgnoresSpace` | 4probe.py:81 | `float()` ignores whitespace around the number, such as the space after a marker or spaces before the line's newline |
| `Clock.AgeIsTruncatedDistance` | 4probe.py:70 | the age in minutes is the absolute distance between the two instants, truncated to whole minutes |
| `Clock.AgeSymmetric` | 4probe.py:70 | the age does not depend on which instant is later, because of `abs` |
| `Clock.FormatThenParse` | 4probe.py:40 | parsing the printed `timestring` gives back the instant with its seconds and microseconds dropped |
| `Clock.ParseThenFormat` | 4probe.py:69 | every stamp `ParseTimestamp` accepts is exactly the printed form of the instant it parses to |
| `Clock.TruncateWithinMinute` | 4probe.py:69-70 | a printed instant lies less than a minute before the instant itself, so their age is 0 |
| `Measurements.LastLineCharacterized` | 4probe.py:62-66 | a line is the scan's final match exactly when it holds the marker and no later line does |
| `Measurements.LastLineAbsent` | 4probe.py:62-66 | the scan finds nothing exactly when no line holds the marker, which leaves the variable unbound |
| `Measurements.SharedLastLine` | 4probe.py:62-66 | the two markers are tracked independently, so one line holding both can be the last match for both |
| `Measurements.ScanLog` | 4probe.py:59-66 | the loop over the lines leaves in each variable the last line holding its marker |
| `Measurements.StampText` | 4probe.py:69 | `split(' [')[0]` is the text before the first `" ["`, or the whole line when there is none |
| `Measurements.ValueText` | 4probe.py:78-80 | `split(marker)[1].split('\n')[0]` is the prefix of the text after the first marker that ends at the end of the line, at a newline or at the next marker, and contains neither |
| `Measurements.ValueTextOfLine` | 4probe.py:78-80 | on a line `head + marker + value + "\n"` with one marker, the value text is exactly `value` |
| `Measurements.MissingConcentrationRaises` | 4probe.py:62-69 | `getLog` fails at once, with nothing assigned, exactly when no log line names a concentration |
| `Measurements.StaleZeroesBoth` | 4probe.py:71-76 | a concentration line whose whole-minute age exceeds the threshold, in the past or the future, sets both values to 0, whatever the volume lines hold |
| `Measurements.StalenessIsStrict` | 4probe.py:71 | an age equal to the threshold still takes the fresh branch |
| `Measurements.NeverMixed` | 4probe.py:71-81 | when both values are assigned, either both are 0 (stale) or both are the numbers after their markers on the last matching lines |
| `Measurements.MissingVolumeOnlyWhenFresh` | 4probe.py:77-80 | a missing volume line raises exactly when the log is fresh and the concentration parsed, so the concentration has already been assigned |
| `Measurements.SameMinuteIsFresh` | 4probe.py:69-71 | a concentration line stamped in the sample's own minute is never stale under a non-negative threshold |
| `Measurements.Conductance` | 4probe.py:50 | conductance in µS: defined exactly when the voltage is non-zero, and then `G · V = I · 10⁶` |
| `Measurements.ConductanceAsWrittenOfStubs` | 4probe.py:50 | as written, `10^6` is 12, so the stub sample records a conductance of 12 instead of 1 000 000 |
| `Measurements.Measurement.constructor` | 4probe.py:33-50 | stamps the sample, prints the `timestring`, splits the response at commas, sets the stub electrical values and the corrected conductance of 10⁶ µS (see Findings, 4probe.py:50), and leaves concentration and volume unset |
| `Measurements.Measurement.GetLog` | 4probe.py:52-81 | returns what `GetLogSpec` prescribes. On success both fields are set. On an exception the volume is untouched and the concentration holds the value assigned before the raise, if any |
| `ResultSink.MakeRow` | 4probe.py:177-184 | the dictionary for an accepted sample pairs the eight column names of the header with the sample's values, in header order |
| `ResultSink.MakeRowLookup` | 4probe.py:177-184 | each value of the sample is found again under its own column name |
| `ResultSink.DictRecord` | 4probe.py:123-126 | `DictWriter.writerow` rejects a dictionary exactly when one of its keys is not a column; otherwise the line has one cell per column, the dictionary's value where it has the key and the empty text where it does not |
| `ResultSink.MakeRowRecord` | 4probe.py:177-185 | the writer accepts the sample's dictionary and writes its eight values in header order |
| `ResultSink.WrittenRecords` | 4probe.py:125-126 | the lines a sequence of `writerow` calls leaves are the lines of the dictionaries before the first rejected one, each the writer's line for its dictionary |
| `ResultSink.ResultsFile.InitOutput` | 4probe.py:128-136 | a new results file holds the header and no lines |
| `ResultSink.ResultsFile.AppendRow` | 4probe.py:138-147 | the writer's line for the dictionary is added after the existing lines and the header is unchanged; a rejected dictionary leaves the file unchanged and is reported |
| `ResultSink.ResultsFile.WriteResultsAll` | 4probe.py:116-126 | the file is rewritten to the header followed by the lines of the dictionaries up to the first rejected one, and an error is reported exactly when some dictionary is rejected |
| `Acquisition.AcceptanceBoundary` | 4probe.py:176 | the volume bound is inclusive, and a volume below it is rejected whatever the noise |
| `Acquisition.RunFromHalted` | 4probe.py:164-165 | after a crash, or once `step_done` is set, the loop measures, sleeps and appends nothing more |
| `Acquisition.AtMostOneRow` | 4probe.py:162-193 | over a whole run the results file only grows, by at most one line, and it grows exactly when the run sets `step_done` |
| `Acquisition.NoLongBackoff` | 4probe.py:161-193 | every sleep of a run is the 20-second settle wait or the 10-second retry; the 300-second `offset` branch is never reached |
| `Acquisition.StepSleeps` | 4probe.py:165-193 | one cycle only appends sleeps, and only the settle wait and the short retry |
| `Acquisition.AcceptedCycleRecords` | 4probe.py:176-186 | an accepted cycle keeps the earlier lines and appends exactly one, the line the csv writer makes of the sample's dictionary, with the concentration, volume and printed instant in their columns, and sets `step_done`; it sleeps only the settle wait, with no cycle-complete delay |
| `Acquisition.RowForRecord` | 4probe.py:177-185 | the dictionary built for an accepted sample is written as the sample's values in header order |
| `Acquisition.RejectedCycleRetries` | 4probe.py:187-190 | a rejected cycle appends nothing, leaves `step_done` unset and sleeps the 10-second retry |
| `Acquisition.RaisedCycleCrashes` | 4probe.py:173 | when `getLog` raises, the cycle ends the script after the settle wait: nothing is written, no retry is slept, and no later cycle changes anything |
| `Acquisition.StaleCycleRetries` | 4probe.py:71-76 | a stale log zeroes the volume, so under a positive volume threshold the cycle is rejected and takes the 10-second retry |
| `Acquisition.RunAsWrittenHalted` | 4probe.py:164-165 | in the loop as written, after a crash no later cycle changes anything |
| `Acquisition.AsWrittenNeverRecords` | 4probe.py:164-193 | as written, no run of any length writes a line below the header or sets `step_done`, whether or not the acceptance test is corrected |
| `Acquisition.AsWrittenFullVolumeCrashes` | 4probe.py:176 | as written, the first cycle whose volume reaches `VOLthres` ends the script with `AttributeError` and nothing written, whatever cycles follow; the corrected loop appends a line there when the noise is acceptable |
| `Acquisition.AsWrittenLowVolumeRetries` | 4probe.py:176-190 | as written, a volume below `VOLthres` stops the `and` before the missing noise attributes: the cycle is rejected without a crash and takes the 10-second retry, the same state as the corrected loop |
| `Acquisition.AsWrittenAcceptedCrashes` | 4probe.py:145 | with only the acceptance test corrected, an accepted sample ends the script with `TypeError` from `appendRow` and nothing written; the corrected loop appends the sample's line |
| `Acquisition.Cycle` | 4probe.py:164-193 | one pass of the loop body on the live results file gives exactly the state `Step` prescribes |
| `Acquisition.Attempt` | 4probe.py:173-193 | `getLog` followed by the rest of the body gives the state the log specification prescribes |
| `Acquisition.Record` | 4probe.py:175-193 | after `getLog`: stop on the exception, append the sample's line and set `step_done` on acceptance, else sleep 10 s; the `offset` branch is dead because a returning `getLog` assigns both values |
| `Acquisition.Acquire` | 4probe.py:149-193 | `main` over a sequence of cycles: a new results file with its header, and a final state equal to the left fold `RunFrom` of `Step` over the cycles |

## Left out

- Instrument I/O (`visa`, `connectOsci`, the `:MEASure` writes and query): the
  instrument's presence and answer are parameters.
- Console output (`print`) is not modelled.
- Opening and reading the log file: the lines are a parameter. A log file
  that cannot be opened (an `OSError`) is not modelled.
- Where files live on disk: the path constants and the timestamped results
  file name built in `main` are not modelled.
- The CSV dialect (quoting, number formatting and `\n` line terminators): a
  written line is modelled as its list of cells in header order.
- `ResultSink.DictRecord`: a rejected dictionary gives one error constant;
  Python's `ValueError` also names every key outside the header.
- Sleeping and reading the clock: delays are recorded, and the clock reading
  of each cycle is an input.
- `while True` never ends: a run is modelled over a finite sequence of cycles.
  After `step_done` the script spins without doing anything, which a further
  cycle leaves unchanged.
- Floating point: concentrations, volumes and thresholds are exact reals, and
  the age is computed from exact microsecond counts.
- `Strings.ParseDecimal`: reads only plain decimal literals (sign, digits,
  optional point). It does not model exponents, `inf`/`nan`, digit
  underscores, non-ASCII whitespace or non-ASCII decimal digits (such as
  Arabic-Indic digits), which Python's `float()` also accepts.
- `Clock.ParseTimestamp`: accepts only the canonical 16-character form. It
  does not model the one-digit fields, extra whitespace and non-ASCII
  decimal digits that `strptime` also accepts.
- `Clock.FormatTimestamp`: assumes a four-digit year; years before 1000
  are not modelled.
- The commented-out parsing of the raw response into electrical fields:
  the stub values 1 are modelled, as the code assigns them.
- The noise figures read by the acceptance test (`V2std`, `diffrms`) are
  never computed by the script, so they are per-cycle inputs (see Findings).

## Findings

| source | as written | input that shows it | evidently intended | confidence | as-written member | corrected member |
|---|---|---|---|---|---|---|
| 4probe.py:176 | the test reads `m.V2std` and `m.diffrms`, which no code assigns | any sample whose volume is at least 30: evaluating `m.V2std` raises `AttributeError` and the script ends without writing | compare the sample's voltage and current noise figures with `STDthres`, and record the sample when they pass | high, not executed | `Acquisition.AsWrittenFullVolumeCrashes` | `Acquisition.AcceptedCycleRecords` |
| 4probe.py:145-147 | `open(filename, mode='a', delimiter=",", lineterminator='\n')` passes csv keywords to `open`; the list `[dict]` then goes to a plain `csv.writer`, which would write the dictionary's text as one cell | any call to `appendRow`: `open` raises `TypeError` for the unexpected keyword, so no run writes a line | open the file for appending and write the dictionary with a `DictWriter` over the header's columns, one line after the others | high, not executed | `Acquisition.AsWrittenAcceptedCrashes` | `ResultSink.ResultsFile.AppendRow` |
| 4probe.py:50 | `self.I/self.V*(10^6)`, where `^` is bitwise exclusive or | the stub sample `I = V = 1`: `10^6` is 12, so the conductance is 12 | multiply by 10⁶ to convert to microsiemens, giving 1 000 000 | high, not executed | `Measurements.ConductanceAsWrittenOfStubs` | `Measurements.Conductance` |
