/**
 The read window of the live plot: under the lock, nothing when fewer than two
 points have been logged; otherwise the last (at most) 100 timestamps and, per
 field, the matching values, obtained by transposing the row buffer
 (`zip(*buffer)`) and keeping the last 100 entries of each column.
 */
module Snapshot {
  import opened Values

  /** How many of the most recent points the plot shows. */
  const WindowSize: nat := 100

  /** What the plot is given: x values, and one y series per field. */
  datatype View = View(times: seq<real>, series: seq<seq<Value>>)

  /** `s[-n:]` for n >= 1: the last `n` entries, or all of `s` when it is
      shorter. (Python's `s[-0:]` is all of `s`, so n = 0 is excluded.) */
  function LastN<T>(s: seq<T>, n: nat): (r: seq<T>)
    requires n > 0
    ensures |r| == Min(n, |s|)
    ensures forall k :: 0 <= k < |r| ==> r[k] == s[|s| - |r| + k]
  {
    s[|s| - Min(n, |s|)..]
  }

  /** The number of columns `zip(*rows)` produces: the shortest row's width,
      or none at all when there are no rows. */
  function MinWidth(rows: seq<Row>): (w: nat)
    ensures forall i :: 0 <= i < |rows| ==> w <= |rows[i]|
    ensures rows != [] ==> exists i :: 0 <= i < |rows| && w == |rows[i]|
    ensures rows == [] ==> w == 0
    decreases |rows|
  {
    if rows == [] then 0
    else if |rows| == 1 then |rows[0]|
    else
      var w := MinWidth(rows[1..]);
      if |rows[0]| <= w then |rows[0]| else w
  }

  /** `list(zip(*rows))`: column j holds the j-th value of every row. */
  function Transpose(rows: seq<Row>): (cols: seq<seq<Value>>)
    ensures |cols| == MinWidth(rows)
    ensures forall j :: 0 <= j < |cols| ==> |cols[j]| == |rows|
    ensures forall j, i :: 0 <= j < |cols| && 0 <= i < |rows| ==> j < |rows[i]| && cols[j][i] == rows[i][j]
  {
    var w := MinWidth(rows);
    seq(w, j requires 0 <= j < w =>
      seq(|rows|, i requires 0 <= i < |rows| && j < |rows[i]| => rows[i][j]))
  }

  /** One pass of the plotting loop's read: `timestamps[-100:]` and
      `y_data[j][-100:]` for every column `j` of `zip(*buffer)`. */
  function Window(timestamps: seq<real>, rows: seq<Row>): (r: Option<View>)
    ensures r.None? <==> |timestamps| < 2
  {
    if |timestamps| < 2 then None
    else
      var cols := Transpose(rows);
      Some(View(LastN(timestamps, WindowSize),
                seq(|cols|, j requires 0 <= j < |cols| => LastN(cols[j], WindowSize))))
  }

  /** `v` shows the last `min(100, n)` timestamps of the history in their
      original order, one series per field, and the k-th point of every
      series comes from the same sample as the k-th timestamp. */
  ghost predicate ShowsRecent(v: View, timestamps: seq<real>, rows: seq<Row>, width: nat)
    requires |timestamps| == |rows|
    requires forall i :: 0 <= i < |rows| ==> |rows[i]| == width
  {
    && |v.times| == Min(WindowSize, |timestamps|)
    && (forall k :: 0 <= k < |v.times| ==> v.times[k] == timestamps[|timestamps| - |v.times| + k])
    && |v.series| == width
    && (forall j :: 0 <= j < width ==> |v.series[j]| == |v.times|)
    && (forall j, k :: 0 <= j < width && 0 <= k < |v.times| ==>
          v.series[j][k] == rows[|rows| - |v.times| + k][j])
  }

  /** For a history whose timestamps and rows line up (equal length, every row
      `width` wide) and that holds at least two points, the window shows the
      most recent points, aligned. */
  lemma WindowAligned(timestamps: seq<real>, rows: seq<Row>, width: nat)
    requires |timestamps| == |rows| >= 2
    requires forall i :: 0 <= i < |rows| ==> |rows[i]| == width
    ensures Window(timestamps, rows).Some?
    ensures ShowsRecent(Window(timestamps, rows).value, timestamps, rows, width)
  {
    var v := Window(timestamps, rows).value;
    var cols := Transpose(rows);
    var i0 :| 0 <= i0 < |rows| && MinWidth(rows) == |rows[i0]|;
    assert |cols| == width;
    forall j, k | 0 <= j < width && 0 <= k < |v.times|
      ensures v.series[j][k] == rows[|rows| - |v.times| + k][j]
    {
      assert v.series[j] == LastN(cols[j], WindowSize);
      assert cols[j][|rows| - |v.times| + k] == rows[|rows| - |v.times| + k][j];
    }
  }
}
