/**
 `insertTrajectoriesData`: read a trajectory CSV file line by line, keep the
 rows whose taxi id is in the set of known ids, and execute the kept rows as
 insert batches of `BatchSize`, with one last batch for the remainder at the
 end of the file. Executing a batch is modelled as emitting it.
 */
module Trajectories {
  import opened Wrappers
  import opened JavaText

  /** `BATCH_SIZE`. */
  const BatchSize: nat := 1000

  /** One row as the insert statement receives it; timestamp and coordinates are kept as their text. */
  datatype Row = Row(taxiId: int, date: string, latitude: string, longitude: string)

  /** Whether `Timestamp.valueOf` and `Double.parseDouble` accept a text. */
  datatype Parsers = Parsers(timestamp: string -> bool, decimal: string -> bool)

  /** The exception a line raises, which ends the whole file. */
  datatype LineError =
    | MissingField(index: nat)    // ArrayIndexOutOfBoundsException on data[index]
    | BadTaxiId                   // NumberFormatException from Integer.parseInt
    | BadTimestamp                // IllegalArgumentException from Timestamp.valueOf
    | BadCoordinate(index: nat)   // NumberFormatException from Double.parseDouble

  /** `Integer.parseInt(line.split(",")[0])`, or `None` when either step throws. */
  function TaxiIdOf(line: string): Option<int> {
    match Field(line, ',', 0)
    case None => None
    case Some(t) => ParseInt(t)
  }

  /**
   One turn of the read loop: `Ok(None)` drops the line, `Ok(Some(row))` adds
   a row to the batch, `Err` is the exception that aborts the file. The id is
   parsed on every line; the other fields only on lines whose id is known.
   */
  function ClassifyLine(line: string, ids: set<int>, p: Parsers): (r: Result<Option<Row>, LineError>)
    ensures TaxiIdOf(line).None? ==> r.Err?
    ensures TaxiIdOf(line).Some? && TaxiIdOf(line).value !in ids ==> r == Ok(None)
    ensures TaxiIdOf(line).Some? && TaxiIdOf(line).value in ids ==> r != Ok(None)
  {
    var data := JavaSplit(line, ',');
    if |data| == 0 then Err(MissingField(0))
    else
      match ParseInt(data[0])
      case None => Err(BadTaxiId)
      case Some(id) =>
        if id !in ids then Ok(None)
        else if |data| < 2 then Err(MissingField(1))
        else if !p.timestamp(data[1]) then Err(BadTimestamp)
        else if |data| < 3 then Err(MissingField(2))
        else if !p.decimal(data[2]) then Err(BadCoordinate(2))
        else if |data| < 4 then Err(MissingField(3))
        else if !p.decimal(data[3]) then Err(BadCoordinate(3))
        else Ok(Some(Row(id, data[1], data[2], data[3])))
  }

  /**
   Which exception a line raises. A line with no first field (only commas)
   raises the index error on `data[0]` and an unparseable first field the
   number-format error, whatever the known ids; the errors of the other
   fields come only from a line whose id is known, in field order.
   */
  lemma ClassifyRaises(line: string, ids: set<int>, p: Parsers)
    ensures ClassifyLine(line, ids, p) == Err(MissingField(0)) <==> Field(line, ',', 0).None?
    ensures ClassifyLine(line, ids, p) == Err(BadTaxiId) <==>
              Field(line, ',', 0).Some? && TaxiIdOf(line).None?
    ensures ClassifyLine(line, ids, p).Err? && TaxiIdOf(line).Some? ==>
              && TaxiIdOf(line).value in ids
              && match ClassifyLine(line, ids, p).error
                 case MissingField(k) => 1 <= k <= 3 && Field(line, ',', k).None?
                 case BadTimestamp => Field(line, ',', 1).Some? && !p.timestamp(Field(line, ',', 1).value)
                 case BadCoordinate(k) => (k == 2 || k == 3) && Field(line, ',', k).Some? && !p.decimal(Field(line, ',', k).value)
                 case BadTaxiId => false
  {
  }

  /**
   A line becomes `row` exactly when its id is known and its second, third and
   fourth fields are the row's timestamp and coordinates, all parseable.
   */
  lemma ClassifyAccepts(line: string, ids: set<int>, p: Parsers, row: Row)
    ensures ClassifyLine(line, ids, p) == Ok(Some(row)) <==>
              && TaxiIdOf(line) == Some(row.taxiId) && row.taxiId in ids
              && Field(line, ',', 1) == Some(row.date) && p.timestamp(row.date)
              && Field(line, ',', 2) == Some(row.latitude) && p.decimal(row.latitude)
              && Field(line, ',', 3) == Some(row.longitude) && p.decimal(row.longitude)
  {
  }

  /** The line a well-formed row is written as: `taxi_id,date,latitude,longitude`. */
  function RenderLine(row: Row): string {
    Join([IntToDecimal(row.taxiId), row.date, row.latitude, row.longitude], ',')
  }

  /** A row whose fields hold no comma and parse, written as a line, reads back as itself or is dropped. */
  predicate WellFormed(row: Row, p: Parsers) {
    && IntMin <= row.taxiId <= IntMax
    && ',' !in row.date && ',' !in row.latitude && ',' !in row.longitude && row.longitude != ""
    && p.timestamp(row.date) && p.decimal(row.latitude) && p.decimal(row.longitude)
  }

  lemma ClassifyRendered(row: Row, ids: set<int>, p: Parsers)
    requires WellFormed(row, p)
    ensures ClassifyLine(RenderLine(row), ids, p) == if row.taxiId in ids then Ok(Some(row)) else Ok(None)
  {
    var fields := [IntToDecimal(row.taxiId), row.date, row.latitude, row.longitude];
    IntToDecimalHasNo(row.taxiId, ',');
    JavaSplitJoin(fields, ',');
    ParseIntRoundTrip(row.taxiId);
  }

  /** What one line does to the batch: dropped, kept as a row, or an exception. */
  type Outcome = Result<Option<Row>, LineError>

  /** The outcome of every line of the file, read on its own. */
  function Outcomes(lines: seq<string>, ids: set<int>, p: Parsers): (outs: seq<Outcome>)
    ensures |outs| == |lines|
    ensures forall k :: 0 <= k < |lines| ==> outs[k] == ClassifyLine(lines[k], ids, p)
  {
    seq(|lines|, k requires 0 <= k < |lines| => ClassifyLine(lines[k], ids, p))
  }

  /** `ClassifyLine` for a fixed id set and parsers, as a function value. */
  function Classifier(ids: set<int>, p: Parsers): string -> Outcome {
    line => ClassifyLine(line, ids, p)
  }

  /** The outcome of every line under any classifier. */
  function OutcomesBy(lines: seq<string>, classify: string -> Outcome): (outs: seq<Outcome>)
    ensures |outs| == |lines|
    ensures forall k :: 0 <= k < |lines| ==> outs[k] == classify(lines[k])
  {
    seq(|lines|, k requires 0 <= k < |lines| => classify(lines[k]))
  }

  lemma OutcomesByClassifier(lines: seq<string>, ids: set<int>, p: Parsers)
    ensures OutcomesBy(lines, Classifier(ids, p)) == Outcomes(lines, ids, p)
  {
  }

  /** What reading lines in order yields: the rows kept so far, or the first line that throws. */
  datatype Scan = Clean(rows: seq<Row>) | Failed(at: nat, error: LineError, rows: seq<Row>)

  /** Reading one more line, the line at index `at`, after the lines read so far produced `s`. */
  function ScanStep(s: Scan, o: Outcome, at: nat): Scan {
    match s
    case Failed(_, _, _) => s
    case Clean(rows) =>
      match o
      case Err(e) => Failed(at, e, rows)
      case Ok(None) => Clean(rows)
      case Ok(Some(row)) => Clean(rows + [row])
  }

  function ScanOutcomes(outs: seq<Outcome>): (s: Scan)
    ensures s.Failed? ==> s.at < |outs|
    decreases |outs|
  {
    if |outs| == 0 then Clean([])
    else ScanStep(ScanOutcomes(outs[..|outs| - 1]), outs[|outs| - 1], |outs| - 1)
  }

  /** The rows a whole file yields, or the line that aborts it. */
  function ScanLines(lines: seq<string>, ids: set<int>, p: Parsers): Scan {
    ScanOutcomes(Outcomes(lines, ids, p))
  }

  /** Reading the prefix one line longer is one more step. */
  lemma ScanPrefixStep(outs: seq<Outcome>, n: nat)
    requires n < |outs|
    ensures ScanOutcomes(outs[..n + 1]) == ScanStep(ScanOutcomes(outs[..n]), outs[n], n)
  {
    assert outs[..n + 1][..n] == outs[..n];
  }

  /** Once a prefix has failed, reading more lines changes nothing. */
  lemma {:induction false} ScanFailedPrefix(outs: seq<Outcome>, n: nat)
    requires n <= |outs|
    requires ScanOutcomes(outs[..n]).Failed?
    ensures ScanOutcomes(outs) == ScanOutcomes(outs[..n])
    decreases |outs|
  {
    if n < |outs| {
      var init := outs[..|outs| - 1];
      assert init[..n] == outs[..n];
      ScanFailedPrefix(init, n);
    } else {
      assert outs[..n] == outs;
    }
  }

  /** A scan fails exactly at the first line that throws, keeping the rows read before it. */
  lemma {:induction false} ScanFailsAtFirst(outs: seq<Outcome>)
    ensures ScanOutcomes(outs).Clean? <==> forall j :: 0 <= j < |outs| ==> outs[j].Ok?
    ensures ScanOutcomes(outs).Failed? ==>
              var s := ScanOutcomes(outs);
              && outs[s.at] == Err(s.error)
              && (forall j :: 0 <= j < s.at ==> outs[j].Ok?)
              && ScanOutcomes(outs[..s.at]) == Clean(s.rows)
    decreases |outs|
  {
    if |outs| > 0 {
      var init := outs[..|outs| - 1];
      ScanFailsAtFirst(init);
      assert forall j :: 0 <= j < |init| ==> init[j] == outs[j];
      var s := ScanOutcomes(outs);
      if s.Failed? && ScanOutcomes(init).Clean? {
        assert init == outs[..s.at];
      }
      if s.Failed? && ScanOutcomes(init).Failed? {
        assert outs[..s.at] == init[..s.at];
      }
    }
  }

  /** Outcomes of a prefix of the file are a prefix of the outcomes. */
  lemma OutcomesPrefix(lines: seq<string>, ids: set<int>, p: Parsers, n: nat)
    requires n <= |lines|
    ensures Outcomes(lines[..n], ids, p) == Outcomes(lines, ids, p)[..n]
  {
  }

  /** The taxi ids of the rows, in order. */
  function IdsOf(rows: seq<Row>): (r: seq<int>)
    ensures |r| == |rows|
  {
    seq(|rows|, k requires 0 <= k < |rows| => rows[k].taxiId)
  }

  /** The taxi id of every line, `None` where reading it throws. */
  function TaxiIds(lines: seq<string>): (keys: seq<Option<int>>)
    ensures |keys| == |lines|
    ensures forall k :: 0 <= k < |lines| ==> keys[k] == TaxiIdOf(lines[k])
  {
    seq(|lines|, k requires 0 <= k < |lines| => TaxiIdOf(lines[k]))
  }

  /** The ids that are present and in `ids`, in order. */
  function KnownOnly(keys: seq<Option<int>>, ids: set<int>): seq<int>
    decreases |keys|
  {
    if |keys| == 0 then []
    else
      var key := keys[|keys| - 1];
      var kept := KnownOnly(keys[..|keys| - 1], ids);
      if key.Some? && key.value in ids then kept + [key.value] else kept
  }

  /** Reference filter: the ids of the lines whose taxi id is in `ids`, in file order. */
  function KeptIds(lines: seq<string>, ids: set<int>): seq<int> {
    KnownOnly(TaxiIds(lines), ids)
  }

  /** A line's outcome, when it does not throw, keeps a row exactly for a known id, and with that id. */
  predicate Agrees(o: Outcome, key: Option<int>, ids: set<int>) {
    o.Ok? ==>
      && (o.value.Some? <==> key.Some? && key.value in ids)
      && (o.value.Some? ==> key == Some(o.value.value.taxiId))
  }

  lemma ClassifyAgrees(line: string, ids: set<int>, p: Parsers)
    ensures Agrees(ClassifyLine(line, ids, p), TaxiIdOf(line), ids)
  {
  }

  /** Scanning outcomes that agree with the ids line by line keeps exactly the known ids. */
  lemma {:induction false} ScanKeepsKnown(outs: seq<Outcome>, keys: seq<Option<int>>, ids: set<int>)
    requires |outs| == |keys|
    requires forall k :: 0 <= k < |outs| ==> Agrees(outs[k], keys[k], ids)
    ensures forall k :: 0 <= k < |ScanOutcomes(outs).rows| ==> ScanOutcomes(outs).rows[k].taxiId in ids
    ensures ScanOutcomes(outs).Clean? ==> IdsOf(ScanOutcomes(outs).rows) == KnownOnly(keys, ids)
    decreases |outs|
  {
    if |outs| > 0 {
      var n := |outs| - 1;
      ScanKeepsKnown(outs[..n], keys[..n], ids);
      var o := outs[n];
      assert Agrees(o, keys[n], ids);
      if o.Ok? && o.value.Some? {
        var rows := ScanOutcomes(outs[..n]).rows;
        assert IdsOf(rows + [o.value.value]) == IdsOf(rows) + [o.value.value.taxiId];
      }
    }
  }

  /** The outcome adds a row to the batch. */
  predicate Kept(o: Outcome) {
    o.Ok? && o.value.Some?
  }

  /** When no line adds a row, the scan ends with no rows, whether it fails or not. */
  lemma {:induction false} ScanNothingKept(outs: seq<Outcome>)
    requires forall k :: 0 <= k < |outs| ==> !Kept(outs[k])
    ensures ScanOutcomes(outs).rows == []
    decreases |outs|
  {
    if |outs| > 0 {
      ScanNothingKept(outs[..|outs| - 1]);
      assert !Kept(outs[|outs| - 1]);
    }
  }

  /**
   Filtering is exact: a line contributes a row exactly when its taxi id is in
   the set, one row per such line, in file order; every row has a known id.
   */
  lemma ScanKeepsExactly(lines: seq<string>, ids: set<int>, p: Parsers)
    ensures forall k :: 0 <= k < |ScanLines(lines, ids, p).rows| ==> ScanLines(lines, ids, p).rows[k].taxiId in ids
    ensures ScanLines(lines, ids, p).Clean? ==> IdsOf(ScanLines(lines, ids, p).rows) == KeptIds(lines, ids)
  {
    var outs := Outcomes(lines, ids, p);
    var keys := TaxiIds(lines);
    forall k | 0 <= k < |outs|
      ensures Agrees(outs[k], keys[k], ids)
    {
      ClassifyAgrees(lines[k], ids, p);
    }
    ScanKeepsKnown(outs, keys, ids);
  }

  /** With an empty set of known ids nothing is ever kept. */
  lemma EmptySetKeepsNothing(lines: seq<string>, p: Parsers)
    ensures ScanLines(lines, {}, p).rows == []
  {
    var outs := Outcomes(lines, {}, p);
    forall k | 0 <= k < |outs|
      ensures !Kept(outs[k])
    {
      assert outs[k] == ClassifyLine(lines[k], {}, p);
    }
    ScanNothingKept(outs);
  }

  /** The rows whose taxi id is in `ids`, in order. */
  function FilterRows(rows: seq<Row>, ids: set<int>): seq<Row>
    decreases |rows|
  {
    if |rows| == 0 then []
    else
      var kept := FilterRows(rows[..|rows| - 1], ids);
      if rows[|rows| - 1].taxiId in ids then kept + [rows[|rows| - 1]] else kept
  }

  function RenderLines(rows: seq<Row>): (lines: seq<string>)
    ensures |lines| == |rows|
  {
    seq(|rows|, k requires 0 <= k < |rows| => RenderLine(rows[k]))
  }

  /** A file of well-formed lines inserts exactly the rows with a known taxi id, in file order. */
  lemma {:induction false} ScanRendered(rows: seq<Row>, ids: set<int>, p: Parsers)
    requires forall k :: 0 <= k < |rows| ==> WellFormed(rows[k], p)
    ensures ScanLines(RenderLines(rows), ids, p) == Clean(FilterRows(rows, ids))
    decreases |rows|
  {
    if |rows| > 0 {
      var init := rows[..|rows| - 1];
      var lines := RenderLines(rows);
      assert lines[..|rows| - 1] == RenderLines(init);
      OutcomesPrefix(lines, ids, p, |rows| - 1);
      ScanRendered(init, ids, p);
      ClassifyRendered(rows[|rows| - 1], ids, p);
    }
  }

  // Batches

  /** Flattening a sequence of batches back into rows. */
  function Flatten(batches: seq<seq<Row>>): seq<Row> {
    if |batches| == 0 then [] else batches[0] + Flatten(batches[1..])
  }

  lemma {:induction false} FlattenAppend(a: seq<seq<Row>>, b: seq<seq<Row>>)
    ensures Flatten(a + b) == Flatten(a) + Flatten(b)
    decreases |a|
  {
    if |a| > 0 {
      assert (a + b)[0] == a[0];
      assert (a + b)[1..] == a[1..] + b;
      FlattenAppend(a[1..], b);
    } else {
      assert a + b == b;
    }
  }

  /** The full batches executed inside the read loop: runs of `BatchSize` rows from the front. */
  function FullBatches(rows: seq<Row>): (batches: seq<seq<Row>>)
    ensures |batches| == |rows| / BatchSize
    ensures forall k :: 0 <= k < |batches| ==> |batches[k]| == BatchSize
    decreases |rows|
  {
    if |rows| < BatchSize then []
    else [rows[..BatchSize]] + FullBatches(rows[BatchSize..])
  }

  /** The rows still pending after the last full batch. */
  function Leftover(rows: seq<Row>): (pending: seq<Row>)
    ensures |pending| == |rows| % BatchSize
    decreases |rows|
  {
    if |rows| < BatchSize then rows else Leftover(rows[BatchSize..])
  }

  /** The full batches followed by the leftover rows are the rows, in order. */
  lemma {:induction false} FullBatchesThenLeftover(rows: seq<Row>)
    ensures Flatten(FullBatches(rows)) + Leftover(rows) == rows
    decreases |rows|
  {
    if |rows| >= BatchSize {
      FullBatchesThenLeftover(rows[BatchSize..]);
      assert rows == rows[..BatchSize] + rows[BatchSize..];
    }
  }

  /**
   Adding one row closes a batch exactly when the count of rows reaches a
   multiple of `BatchSize`; the closed batch is the pending rows plus the new one.
   */
  lemma {:induction false} FullBatchesSnoc(rows: seq<Row>, row: Row)
    ensures (|rows| + 1) % BatchSize == 0 ==>
              FullBatches(rows + [row]) == FullBatches(rows) + [Leftover(rows) + [row]]
              && Leftover(rows + [row]) == []
    ensures (|rows| + 1) % BatchSize != 0 ==>
              FullBatches(rows + [row]) == FullBatches(rows)
              && Leftover(rows + [row]) == Leftover(rows) + [row]
    decreases |rows|
  {
    var more := rows + [row];
    if |rows| >= BatchSize {
      assert more[..BatchSize] == rows[..BatchSize];
      assert more[BatchSize..] == rows[BatchSize..] + [row];
      FullBatchesSnoc(rows[BatchSize..], row);
    } else if |more| == BatchSize {
      assert more[..BatchSize] == more;
      assert more[BatchSize..] == [];
    }
  }

  /** Every batch the file produces: the full ones, then the final flush of the remainder. */
  function Batches(rows: seq<Row>): seq<seq<Row>> {
    FullBatches(rows) + [Leftover(rows)]
  }

  /**
   The batches partition the rows in order: all but the last hold exactly
   `BatchSize` rows, the last holds the remaining `|rows| % BatchSize` (possibly none).
   */
  lemma BatchesPartition(rows: seq<Row>)
    ensures Flatten(Batches(rows)) == rows
    ensures |Batches(rows)| == |rows| / BatchSize + 1
    ensures forall k :: 0 <= k < |Batches(rows)| - 1 ==> |Batches(rows)[k]| == BatchSize
    ensures |Batches(rows)[|Batches(rows)| - 1]| == |rows| % BatchSize < BatchSize
  {
    var last := Leftover(rows);
    FlattenAppend(FullBatches(rows), [last]);
    assert Flatten([last]) == last + Flatten([]);
    FullBatchesThenLeftover(rows);
  }

  /** What `insertTrajectoriesData` leaves behind. */
  datatype InsertOutcome =
    | Completed(batches: seq<seq<Row>>, batchCount: nat)
    | Aborted(executed: seq<seq<Row>>, line: nat, error: LineError)

  /** The rows after one more line: the line's row is added when it has one. */
  function Extend(rows: seq<Row>, o: Outcome): seq<Row> {
    match o
    case Ok(Some(row)) => rows + [row]
    case _ => rows
  }

  /**
   The body of the read loop for one line: classify it and, for a kept row,
   `addBatch`, `rowCount++`, and an `executeBatch` when the count reaches a
   multiple of `BATCH_SIZE`. The batch state describes `rows` before the
   call and `Extend(rows, outcome)` after it.
   */
  method ReadLine(line: string, classify: string -> Outcome, ghost rows: seq<Row>,
                  executed: seq<seq<Row>>, pending: seq<Row>, rowCount: int, batchCount: int)
    returns (outcome: Outcome, executed': seq<seq<Row>>, pending': seq<Row>, rowCount': int, batchCount': int)
    requires rowCount == |rows| && executed == FullBatches(rows) && pending == Leftover(rows) && batchCount == |executed|
    ensures outcome == classify(line)
    ensures outcome.Err? ==> executed' == executed
    ensures rowCount' == |Extend(rows, outcome)| && executed' == FullBatches(Extend(rows, outcome))
    ensures pending' == Leftover(Extend(rows, outcome)) && batchCount' == |executed'|
  {
    outcome := classify(line);
    executed', pending', rowCount', batchCount' := executed, pending, rowCount, batchCount;
    if outcome.Ok? && outcome.value.Some? {
      var row := outcome.value.value;
      FullBatchesSnoc(rows, row);
      pending' := pending + [row];
      rowCount' := rowCount + 1;
      if rowCount' % BatchSize == 0 {
        executed' := executed + [pending'];
        batchCount' := batchCount + 1;
        pending' := [];
      }
    }
  }

  /**
   The read loop with the line classification as a parameter. On success
   every kept row is in exactly one executed batch and `batchCount` counts
   the flushes inside the loop. When a line throws, the batches already
   executed stay executed and the pending rows are lost.
   */
  method ReadLines(lines: seq<string>, classify: string -> Outcome) returns (out: InsertOutcome)
    ensures var s := ScanOutcomes(OutcomesBy(lines, classify));
            && (out.Completed? <==> s.Clean?)
            && (out.Completed? ==> out.batches == Batches(s.rows) && Flatten(out.batches) == s.rows)
            && (out.Completed? ==> out.batchCount == |s.rows| / BatchSize == |out.batches| - 1)
            && (out.Aborted? ==> out.line == s.at && out.error == s.error && out.executed == FullBatches(s.rows))
  {
    ghost var outs := OutcomesBy(lines, classify);
    ghost var rows: seq<Row> := [];
    var executed: seq<seq<Row>> := [];
    var pending: seq<Row> := [];
    var rowCount := 0;
    var batchCount := 0;
    var i := 0;
    while i < |lines|
      invariant 0 <= i <= |lines|
      invariant ScanOutcomes(outs[..i]) == Clean(rows)
      invariant rowCount == |rows|
      invariant executed == FullBatches(rows)
      invariant pending == Leftover(rows)
      invariant batchCount == |executed|
      decreases |lines| - i
    {
      ScanPrefixStep(outs, i);
      var outcome;
      outcome, executed, pending, rowCount, batchCount := ReadLine(lines[i], classify, rows, executed, pending, rowCount, batchCount);
      assert outcome == outs[i];
      if outcome.Err? {
        ScanFailedPrefix(outs, i + 1);
        return Aborted(executed, i, outcome.error);
      }
      rows := Extend(rows, outcome);
      i := i + 1;
    }
    assert outs[..|lines|] == outs;
    BatchesPartition(rows);
    executed := executed + [pending];
    out := Completed(executed, batchCount);
  }

  /** `insertTrajectoriesData`: the read loop over the lines of one file. */
  method InsertTrajectoriesData(lines: seq<string>, ids: set<int>, p: Parsers) returns (out: InsertOutcome)
    ensures out.Completed? <==> ScanLines(lines, ids, p).Clean?
    ensures out.Completed? ==> out.batches == Batches(ScanLines(lines, ids, p).rows)
    ensures out.Completed? ==> Flatten(out.batches) == ScanLines(lines, ids, p).rows
    ensures out.Completed? ==> out.batchCount == |ScanLines(lines, ids, p).rows| / BatchSize == |out.batches| - 1
    ensures out.Aborted? ==>
              var s := ScanLines(lines, ids, p);
              out.line == s.at && out.error == s.error && out.executed == FullBatches(s.rows)
  {
    out := ReadLines(lines, Classifier(ids, p));
    OutcomesByClassifier(lines, ids, p);
  }

  /** The scenario of a taxi table holding ids 1 and 2 and a file with rows for 1, 3, 2, 3. */
  lemma KnownIdsScenario(date: string, lat: string, lon: string, p: Parsers)
    requires WellFormed(Row(1, date, lat, lon), p)
    ensures var rows := [Row(1, date, lat, lon), Row(3, date, lat, lon), Row(2, date, lat, lon), Row(3, date, lat, lon)];
            ScanLines(RenderLines(rows), {1, 2}, p) == Clean([Row(1, date, lat, lon), Row(2, date, lat, lon)])
  {
    var rows := [Row(1, date, lat, lon), Row(3, date, lat, lon), Row(2, date, lat, lon), Row(3, date, lat, lon)];
    ScanRendered(rows, {1, 2}, p);
    assert rows[..1][..0] == [];
    assert FilterRows(rows[..1], {1, 2}) == [rows[0]];
    assert rows[..2][..1] == rows[..1];
    assert FilterRows(rows[..2], {1, 2}) == [rows[0]];
    assert rows[..3][..2] == rows[..2];
    assert FilterRows(rows[..3], {1, 2}) == [rows[0], rows[2]];
    assert rows[..4][..3] == rows[..3];
  }
}
