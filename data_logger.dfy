/**
 The logger node's state and its message handler. Each accepted message adds
 one row to the CSV log, one timestamp and one row to the in-memory history,
 and becomes the reference row for the next jump test; a refused message
 changes nothing. The history is unbounded; only the plot window is capped.
 */
module DataLogger {
  import opened Values
  import opened FieldExtractor
  import opened OutlierFilter
  import opened Snapshot

  /** What one call of the message handler did: logged the row, dropped it as
      an outlier (with a warning), or raised from the outlier test. */
  datatype Ingest = Logged | Dropped | Raised

  /** The row the handler builds: one value per configured field path. */
  function RowOf(msg: Msg, fields: seq<string>): (row: Row)
    ensures |row| == |fields|
    ensures forall i :: 0 <= i < |fields| ==>
      (row[i].Absent? <==> Follow(msg, SplitPath(fields[i])) == NoneMsg)
    ensures forall i :: 0 <= i < |fields| && Follow(msg, SplitPath(fields[i])).Leaf? ==>
      row[i] == Follow(msg, SplitPath(fields[i])).v
    ensures forall i :: 0 <= i < |fields| && Follow(msg, SplitPath(fields[i])).Record? ==>
      row[i] == NonNumeric
  {
    seq(|fields|, i requires 0 <= i < |fields| => FieldValue(Follow(msg, SplitPath(fields[i]))))
  }

  /** The loop at the head of `callback`: extract every configured field, in
      order, and collect the values. */
  method BuildRow(msg: Msg, fields: seq<string>) returns (row: Row)
    ensures row == RowOf(msg, fields)
  {
    row := [];
    var i := 0;
    while i < |fields|
      invariant 0 <= i <= |fields|
      invariant row == RowOf(msg, fields[..i])
    {
      var val := ExtractField(msg, fields[i]);
      assert fields[..i + 1][..i] == fields[..i];
      row := row + [FieldValue(val)];
      i := i + 1;
    }
    assert fields[..i] == fields;
  }

  /** The header `init_csv` writes before any data: the time column, then
      the field paths. */
  function HeaderOf(fields: seq<string>): (h: seq<string>)
    ensures |h| == |fields| + 1 && h[0] == "time" && h[1..] == fields
  {
    ["time"] + fields
  }

  /** A data row of the CSV log: `[now] + row`. */
  function CsvRow(now: real, row: Row): (line: seq<Value>)
    ensures |line| == |row| + 1 && line[0] == Num(now) && line[1..] == row
  {
    [Num(now)] + row
  }

  /** The threshold used when the configuration does not set one. */
  const DefaultThreshold: real := 100.0

  class Logger {
    /** The configured field paths, in order. */
    const fields: seq<string>
    /** `outlier_threshold`: the largest move per field that is not a jump. */
    const threshold: real
    /** The CSV header row. */
    const csvHeader: seq<string>
    /** The CSV data rows written so far. */
    var csvRows: seq<seq<Value>>
    var timestamps: seq<real>
    var buffer: seq<Row>
    var lastRow: Option<Row>

    /** The history invariants: the CSV log, the timestamps and the rows
        advance together; every row is as wide as the field list and free of
        `None`, NaN and +/-inf; `lastRow` is the most recent accepted row. */
    ghost predicate Valid()
      reads this
    {
      && csvHeader == HeaderOf(fields)
      && |timestamps| == |buffer| == |csvRows|
      && (forall i :: 0 <= i < |buffer| ==> |buffer[i]| == |fields| && NoInvalid(buffer[i]))
      && (forall i :: 0 <= i < |csvRows| ==> csvRows[i] == CsvRow(timestamps[i], buffer[i]))
      && lastRow == (if buffer == [] then None else Some(buffer[|buffer| - 1]))
    }

    /** `__init__` and `init_csv`: an empty history and a log holding only
        the header; the threshold is the configured one, or 100. */
    constructor (fields: seq<string>, configuredThreshold: Option<real>)
      ensures Valid()
      ensures this.fields == fields
      ensures threshold == if configuredThreshold.Some? then configuredThreshold.value else DefaultThreshold
      ensures csvHeader == HeaderOf(fields) && csvRows == []
      ensures timestamps == [] && buffer == [] && lastRow == None
    {
      this.fields := fields;
      threshold := if configuredThreshold.Some? then configuredThreshold.value else DefaultThreshold;
      csvHeader := HeaderOf(fields);
      csvRows := [];
      timestamps := [];
      buffer := [];
      lastRow := None;
    }

    /** `callback(msg)`, with `now` standing for `rospy.Time.now().to_sec()`. */
    method Callback(msg: Msg, now: real) returns (outcome: Ingest)
      requires Valid()
      modifies this
      ensures Valid()
      ensures var verdict := IsOutlier(RowOf(msg, fields), old(lastRow), threshold);
        && (outcome == Logged <==> verdict == Returns(false))
        && (outcome == Dropped <==> verdict == Returns(true))
        && (outcome == Raised <==> verdict == RaisesTypeError)
      ensures outcome == Logged ==>
        && timestamps == old(timestamps) + [now]
        && buffer == old(buffer) + [RowOf(msg, fields)]
        && csvRows == old(csvRows) + [CsvRow(now, RowOf(msg, fields))]
        && lastRow == Some(RowOf(msg, fields))
      ensures outcome != Logged ==>
        timestamps == old(timestamps) && buffer == old(buffer) &&
        csvRows == old(csvRows) && lastRow == old(lastRow)
      ensures old(lastRow).Some? ==>
        IsOutlier(RowOf(msg, fields), old(lastRow), threshold) ==
        Classify(RowOf(msg, fields), old(lastRow), threshold, false)
    {
      var row := BuildRow(msg, fields);
      if lastRow.Some? {
        ImputationUnused(row, lastRow.value, threshold);
      }
      var verdict := IsOutlier(row, lastRow, threshold);
      if verdict == RaisesTypeError {
        return Raised;
      }
      if verdict.outlier {
        return Dropped;
      }
      csvRows := csvRows + [CsvRow(now, row)];
      timestamps := timestamps + [now];
      buffer := buffer + [row];
      lastRow := Some(row);
      outcome := Logged;
    }

    /** The plotting thread's read of the history under the lock. */
    method PlotWindow() returns (r: Option<View>)
      requires Valid()
      ensures r.None? <==> |timestamps| < 2
      ensures r.Some? ==> ShowsRecent(r.value, timestamps, buffer, |fields|)
    {
      r := Window(timestamps, buffer);
      if |timestamps| >= 2 {
        assert forall i :: 0 <= i < |buffer| ==> |buffer[i]| == |fields|;
        WindowAligned(timestamps, buffer, |fields|);
      }
    }
  }

  /** A message with two numeric attributes `x` and `y`. */
  function PointMsg(x: real, y: real): Msg
  {
    Record(map["x" := Leaf(Num(x)), "y" := Leaf(Num(y))])
  }

  lemma RowOfPoint(x: real, y: real)
    ensures RowOf(PointMsg(x, y), ["x", "y"]) == [Num(x), Num(y)]
  {
    SplitDotFree("x");
    SplitDotFree("y");
    assert Follow(PointMsg(x, y), ["x"]) == Leaf(Num(x));
    assert Follow(PointMsg(x, y), ["y"]) == Leaf(Num(y));
  }

  /** The verdicts of the scenario below, from the jump rule. */
  lemma JumpScenarioVerdicts()
    ensures IsOutlier(RowOf(PointMsg(1.0, 1.0), ["x", "y"]), None, 5.0) == Returns(false)
    ensures IsOutlier(RowOf(PointMsg(1000.0, 1.0), ["x", "y"]), Some([Num(1.0), Num(1.0)]), 5.0) == Returns(true)
    ensures IsOutlier(RowOf(PointMsg(2.0, 1.0), ["x", "y"]), Some([Num(1.0), Num(1.0)]), 5.0) == Returns(false)
  {
    RowOfPoint(1.0, 1.0);
    RowOfPoint(1000.0, 1.0);
    RowOfPoint(2.0, 1.0);
    var p1, p2, p3 := [Num(1.0), Num(1.0)], [Num(1000.0), Num(1.0)], [Num(2.0), Num(1.0)];
    FirstRowKeptIffValid(p1, 5.0);
    JumpRule(p2, p1, 5.0);
    assert Abs(p2[0].x - p1[0].x) > 5.0;
    MoveWithinThresholdKept(p3, p1, 5.0);
  }

  /** Two fields, threshold 5: a jump of 999 is dropped, and the next row is
      judged against the last accepted one, not the dropped one. */
  method JumpScenario()
  {
    var logger := new Logger(["x", "y"], Some(5.0));
    JumpScenarioVerdicts();
    var o1 := logger.Callback(PointMsg(1.0, 1.0), 0.1);
    var o2 := logger.Callback(PointMsg(1000.0, 1.0), 0.2);
    var o3 := logger.Callback(PointMsg(2.0, 1.0), 0.3);
    RowOfPoint(1.0, 1.0);
    RowOfPoint(2.0, 1.0);
    assert o1 == Logged && o2 == Dropped && o3 == Logged;
    assert |logger.buffer| == |logger.csvRows| == 2;
    assert logger.lastRow == Some([Num(2.0), Num(1.0)]);
  }

  /** One field: NaN and a missing value are dropped; on an empty history a
      finite value is logged. */
  method InvalidScenario()
  {
    var logger := new Logger(["x"], None);
    var nan := Record(map["x" := Leaf(NaN)]);
    var missing := Record(map["z" := Leaf(Num(3.0))]);
    var five := Record(map["x" := Leaf(Num(5.0))]);
    SplitDotFree("x");
    assert RowOf(nan, ["x"]) == [NaN];
    assert RowOf(missing, ["x"]) == [Absent];
    assert RowOf(five, ["x"]) == [Num(5.0)];
    var o1 := logger.Callback(nan, 1.0);
    var o2 := logger.Callback(missing, 2.0);
    var o3 := logger.Callback(five, 3.0);
    assert o1 == Dropped && o2 == Dropped && o3 == Logged;
    assert logger.timestamps == [3.0] && logger.lastRow == Some([Num(5.0)]);
  }
}
