/**
 * The results file as an append-only sink of csv lines. Its header is the
 * fixed column list; `initOutput` starts a file holding only that header,
 * `appendRow` adds the line of one dictionary after the existing ones, and
 * `writeResultsAll` rewrites the file from a list of dictionaries. A
 * dictionary becomes a line the way `csv.DictWriter` writes it.
 */
module ResultSink {
  import opened Wrappers

  /** The column names, in header order. */
  const FieldNames: seq<string> := ["concentration [mg/dL]", "volume [mL]", "V mean [mV]", "V std [uV]",
                                    "I mean [mA]", "I std [uA]", "conductance [uS]", "timestamp"]

  datatype Cell = Number(x: real) | Text(s: string)

  /** A dictionary handed to the writer: (key, value) pairs in insertion order. */
  type Row = seq<(string, Cell)>

  /**
   * The dictionary `main` builds for an accepted sample: each column name
   * of the header paired with the sample's value for it, in header order.
   */
  function MakeRow(concentration: real, volume: real, voltageMean: real, voltageStd: real,
                   currentMean: real, currentStd: real, conductance: real, timestring: string): (row: Row)
    ensures |row| == |FieldNames|
    ensures forall k :: 0 <= k < |row| ==> row[k].0 == FieldNames[k]
  {
    var values := MakeRecord(concentration, volume, voltageMean, voltageStd,
                             currentMean, currentStd, conductance, timestring);
    seq(|FieldNames|, k requires 0 <= k < |FieldNames| => (FieldNames[k], values[k]))
  }

  /** The sample's values in header order. */
  function MakeRecord(concentration: real, volume: real, voltageMean: real, voltageStd: real,
                      currentMean: real, currentStd: real, conductance: real, timestring: string): (rec: Record)
    ensures |rec| == |FieldNames|
  {
    [Number(concentration), Number(volume), Number(voltageMean), Number(voltageStd),
     Number(currentMean), Number(currentStd), Number(conductance), Text(timestring)]
  }

  /** The value stored under `key`, looked up the way a dictionary is read. */
  function Lookup(row: Row, key: string): (r: Option<Cell>)
    ensures r.Some? <==> exists k :: 0 <= k < |row| && row[k].0 == key
  {
    if row == [] then None
    else if row[0].0 == key then Some(row[0].1)
    else Lookup(row[1..], key)
  }

  /** No column name appears twice in `row`. */
  predicate DistinctKeys(row: Row)
  {
    forall i, j :: 0 <= i < j < |row| ==> row[i].0 != row[j].0
  }

  /** With distinct column names, each value is found under its own name. */
  lemma {:induction false} LookupAt(row: Row, k: nat)
    requires DistinctKeys(row) && k < |row|
    ensures Lookup(row, row[k].0) == Some(row[k].1)
  {
    if k > 0 {
      assert row[0].0 != row[k].0;
      assert row[1..][k - 1] == row[k];
      LookupAt(row[1..], k - 1);
    }
  }

  lemma FieldNamesDistinct()
    ensures forall i, j :: 0 <= i < j < |FieldNames| ==> FieldNames[i] != FieldNames[j]
  {
    forall i, j | 0 <= i < j < |FieldNames| ensures FieldNames[i] != FieldNames[j] {
      assert |FieldNames[i]| != |FieldNames[j]| || FieldNames[i][0] != FieldNames[j][0];
    }
  }

  /** Every value of an accepted sample is found again under its own column. */
  lemma MakeRowLookup(concentration: real, volume: real, voltageMean: real, voltageStd: real,
                      currentMean: real, currentStd: real, conductance: real, timestring: string)
    ensures var row := MakeRow(concentration, volume, voltageMean, voltageStd,
                               currentMean, currentStd, conductance, timestring);
            && Lookup(row, "concentration [mg/dL]") == Some(Number(concentration))
            && Lookup(row, "volume [mL]") == Some(Number(volume))
            && Lookup(row, "V mean [mV]") == Some(Number(voltageMean))
            && Lookup(row, "V std [uV]") == Some(Number(voltageStd))
            && Lookup(row, "I mean [mA]") == Some(Number(currentMean))
            && Lookup(row, "I std [uA]") == Some(Number(currentStd))
            && Lookup(row, "conductance [uS]") == Some(Number(conductance))
            && Lookup(row, "timestamp") == Some(Text(timestring))
  {
    var row := MakeRow(concentration, volume, voltageMean, voltageStd,
                       currentMean, currentStd, conductance, timestring);
    FieldNamesDistinct();
    assert DistinctKeys(row);
    LookupAt(row, 0); LookupAt(row, 1); LookupAt(row, 2); LookupAt(row, 3);
    LookupAt(row, 4); LookupAt(row, 5); LookupAt(row, 6); LookupAt(row, 7);
  }

  /**
   * The line the csv writer puts in the file for `row`, one cell per column in
   * header order, as `csv.DictWriter` builds it: a key outside the header is a
   * ValueError (`extrasaction='raise'`), and a column the dictionary lacks is
   * written empty (`restval=''`).
   */
  type Record = seq<Cell>

  datatype CsvError = FieldsNotInHeader

  /** The cell written for a column: the dictionary's value, or the empty text. */
  function CellOrBlank(value: Option<Cell>): Cell
  {
    if value.Some? then value.value else Text("")
  }

  /** The first key of `row` that is not a column name, if any. */
  function UnknownKey(row: Row): (r: Option<string>)
    ensures r.None? <==> forall k :: 0 <= k < |row| ==> row[k].0 in FieldNames
    ensures r.Some? ==> r.value !in FieldNames
  {
    if row == [] then None
    else if row[0].0 !in FieldNames then Some(row[0].0)
    else
      var rest := UnknownKey(row[1..]);
      assert forall k :: 1 <= k < |row| ==> row[k] == row[1..][k - 1];
      rest
  }

  /** `DictWriter.writerow(row)`: the dictionary turned into the line that is written. */
  function DictRecord(row: Row): (r: Result<Record, CsvError>)
    ensures r.Failure? <==> exists k :: 0 <= k < |row| && row[k].0 !in FieldNames
    ensures r.Success? ==> |r.value| == |FieldNames|
    ensures r.Success? ==> forall j :: 0 <= j < |FieldNames| ==>
              (Lookup(row, FieldNames[j]).Some? ==> r.value[j] == Lookup(row, FieldNames[j]).value)
    ensures r.Success? ==> forall j :: 0 <= j < |FieldNames| ==>
              (Lookup(row, FieldNames[j]).None? ==> r.value[j] == Text(""))
  {
    if UnknownKey(row).Some? then Failure(FieldsNotInHeader)
    else Success(seq(|FieldNames|, j requires 0 <= j < |FieldNames| => CellOrBlank(Lookup(row, FieldNames[j]))))
  }

  /**
   * The dictionary `main` builds is accepted by the writer, and each of its
   * values lands under its own column.
   */
  lemma MakeRowRecord(concentration: real, volume: real, voltageMean: real, voltageStd: real,
                      currentMean: real, currentStd: real, conductance: real, timestring: string)
    ensures DictRecord(MakeRow(concentration, volume, voltageMean, voltageStd,
                               currentMean, currentStd, conductance, timestring))
            == Success(MakeRecord(concentration, volume, voltageMean, voltageStd,
                                  currentMean, currentStd, conductance, timestring))
  {
    var row := MakeRow(concentration, volume, voltageMean, voltageStd,
                       currentMean, currentStd, conductance, timestring);
    var rec := MakeRecord(concentration, volume, voltageMean, voltageStd,
                          currentMean, currentStd, conductance, timestring);
    FieldNamesDistinct();
    assert DistinctKeys(row);
    assert forall k :: 0 <= k < |row| ==> row[k].0 in FieldNames;
    var r := DictRecord(row);
    forall j | 0 <= j < |FieldNames| ensures r.value[j] == rec[j] {
      LookupAt(row, j);
    }
    assert r.value == rec;
  }

  /**
   * The lines a sequence of `writerow` calls leaves below the header: those
   * of the rows before the first one the writer rejects.
   */
  function WrittenRecords(all: seq<Row>): (recs: seq<Record>)
    ensures |recs| <= |all|
    ensures forall k :: 0 <= k < |recs| ==> DictRecord(all[k]) == Success(recs[k])
    ensures |recs| < |all| ==> DictRecord(all[|recs|]).Failure?
  {
    if all == [] then []
    else match DictRecord(all[0])
      case Failure(_) => []
      case Success(r) => [r] + WrittenRecords(all[1..])
  }

  datatype SinkError = TypeError

  /**
   * `appendRow` as written: it hands the csv keywords `delimiter` and
   * `lineterminator` to `open`, which rejects them, so the call always raises
   * before the file is touched.
   */
  const AppendRowAsWritten: Result<seq<Record>, SinkError> := Failure(TypeError)

  /** The results file: its header line and the lines below it. */
  class ResultsFile {
    var header: seq<string>
    var records: seq<Record>

    /** `initOutput`: a new file holding the header only. */
    constructor InitOutput()
      ensures header == FieldNames && records == []
    {
      header := FieldNames;
      records := [];
    }

    /**
     * `appendRow` with the keywords given to the csv writer, writing the
     * dictionary as the header's `DictWriter` does: its line goes after the
     * others, or the writer rejects it and the file is unchanged.
     */
    method AppendRow(row: Row) returns (error: Option<CsvError>)
      modifies this
      ensures header == old(header)
      ensures error.None? <==> DictRecord(row).Success?
      ensures records == old(records) + (if error.None? then [DictRecord(row).value] else [])
    {
      match DictRecord(row)
      case Failure(e) =>
        error := Some(e);
      case Success(rec) =>
        records := records + [rec];
        error := None;
    }

    /**
     * `writeResultsAll`: the file is truncated and given the header, then
     * each dictionary is written in order until the writer rejects one.
     */
    method WriteResultsAll(all: seq<Row>) returns (error: Option<CsvError>)
      modifies this
      ensures header == FieldNames
      ensures records == WrittenRecords(all)
      ensures error.None? <==> forall k :: 0 <= k < |all| ==> DictRecord(all[k]).Success?
    {
      header := FieldNames;
      records := [];
      error := None;
      for i := 0 to |all|
        invariant header == FieldNames
        invariant |records| == i
        invariant forall k :: 0 <= k < i ==> DictRecord(all[k]) == Success(records[k])
        invariant error.None?
      {
        error := AppendRow(all[i]);
        if error.Some? {
          assert DictRecord(all[i]).Failure?;
          WrittenRecordsStop(all, records);
          return;
        }
      }
      WrittenRecordsStop(all, records);
    }
  }

  /**
   * The lines written are fixed by the rows: any prefix of accepted rows
   * that ends at a rejected row, or at the end, is what `WrittenRecords` gives.
   */
  lemma {:induction false} WrittenRecordsStop(all: seq<Row>, recs: seq<Record>)
    requires |recs| <= |all|
    requires forall k :: 0 <= k < |recs| ==> DictRecord(all[k]) == Success(recs[k])
    requires |recs| < |all| ==> DictRecord(all[|recs|]).Failure?
    ensures WrittenRecords(all) == recs
    decreases |all|
  {
    if all != [] {
      if recs == [] {
        assert DictRecord(all[0]).Failure?;
      } else {
        assert DictRecord(all[0]) == Success(recs[0]);
        forall k | 0 <= k < |recs[1..]| ensures DictRecord(all[1..][k]) == Success(recs[1..][k]) {
          assert all[1..][k] == all[k + 1];
        }
        if |recs[1..]| < |all[1..]| {
          assert all[1..][|recs[1..]|] == all[|recs|];
        }
        WrittenRecordsStop(all[1..], recs[1..]);
      }
    }
  }
}
