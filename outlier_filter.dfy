/**
 The logger's outlier test (`is_outlier`). A row is an outlier when it holds
 `None`, NaN or +/-inf, or, once a row has been accepted, when some field has
 moved by strictly more than the threshold since that row.
 */
module OutlierFilter {
  import opened Values

  /** What `abs(a - b)` evaluates to for two field values: a finite distance,
      +inf, NaN, or a `TypeError` when an operand is not a number. */
  datatype Gap = Finite(d: real) | Infinite | NotANumber | TypeError

  /** Python's `is_outlier` either returns a boolean or raises. */
  datatype Verdict = Returns(outlier: bool) | RaisesTypeError

  /** The operand substitution `a if a is not None else 0`. When `impute` is
      false the substitution is dropped, and `None` is used as it is. */
  function Operand(v: Value, impute: bool): Value
  {
    if impute && v.Absent? then Num(0.0) else v
  }

  /** `abs(a - b)` under IEEE rules: NaN wins, inf - inf of the same sign is
      NaN, any other infinite operand gives +inf. `None` (when not imputed)
      and non-numeric operands raise `TypeError`. */
  function AbsDiff(a: Value, b: Value, impute: bool): (g: Gap)
    ensures g.TypeError? <==>
      Operand(a, impute).Absent? || Operand(a, impute).NonNumeric? ||
      Operand(b, impute).Absent? || Operand(b, impute).NonNumeric?
    ensures a.Num? && b.Num? ==> g == Finite(Abs(a.x - b.x))
  {
    var x := Operand(a, impute);
    var y := Operand(b, impute);
    if x.Absent? || x.NonNumeric? || y.Absent? || y.NonNumeric? then TypeError
    else if x.NaN? || y.NaN? then NotANumber
    else if x.Num? && y.Num? then Finite(Abs(x.x - y.x))
    else if x.Inf? && y.Inf? && x.negative == y.negative then NotANumber
    else Infinite
  }

  /** `d > threshold` for a distance: NaN compares false, +inf compares true. */
  predicate Exceeds(g: Gap, threshold: real)
  {
    match g
    case Finite(d) => d > threshold
    case Infinite => true
    case NotANumber => false
    case TypeError => false
  }

  /** `any(val is None or isnan(val) or isinf(val) for val in row)` */
  function AnyInvalid(row: Row): (r: bool)
    ensures r == !NoInvalid(row)
    decreases |row|
  {
    if row == [] then false
    else Invalid(row[0]) || AnyInvalid(row[1..])
  }

  /** The list `diffs` over `zip(row, last)`: it stops at the shorter row. */
  function Diffs(row: Row, last: Row, impute: bool): (ds: seq<Gap>)
    ensures |ds| == Min(|row|, |last|)
    ensures forall i :: 0 <= i < |ds| ==> ds[i] == AbsDiff(row[i], last[i], impute)
  {
    seq(Min(|row|, |last|), i requires 0 <= i < Min(|row|, |last|) => AbsDiff(row[i], last[i], impute))
  }

  /** Building `diffs` raises as soon as one of its entries does. */
  function AnyTypeError(ds: seq<Gap>): (r: bool)
    ensures r <==> exists i :: 0 <= i < |ds| && ds[i].TypeError?
    decreases |ds|
  {
    if ds == [] then false
    else ds[0].TypeError? || AnyTypeError(ds[1..])
  }

  /** `any(d > threshold for d in diffs)` */
  function AnyExceeds(ds: seq<Gap>, threshold: real): (r: bool)
    ensures r <==> exists i :: 0 <= i < |ds| && Exceeds(ds[i], threshold)
    decreases |ds|
  {
    if ds == [] then false
    else Exceeds(ds[0], threshold) || AnyExceeds(ds[1..], threshold)
  }

  /** The test with or without the `None`-as-0 substitution in the difference. */
  function Classify(row: Row, last: Option<Row>, threshold: real, impute: bool): (v: Verdict)
    ensures !NoInvalid(row) ==> v == Returns(true)
    ensures NoInvalid(row) && last.None? ==> v == Returns(false)
    ensures NoInvalid(row) && last.Some? ==>
      (v == RaisesTypeError <==>
         exists i :: 0 <= i < Min(|row|, |last.value|) && AbsDiff(row[i], last.value[i], impute).TypeError?)
    ensures NoInvalid(row) && last.Some? && v != RaisesTypeError ==>
      (v == Returns(true) <==>
         exists i :: 0 <= i < Min(|row|, |last.value|) && Exceeds(AbsDiff(row[i], last.value[i], impute), threshold))
  {
    if AnyInvalid(row) then Returns(true)
    else if last.None? then Returns(false)
    else
      var ds := Diffs(row, last.value, impute);
      if AnyTypeError(ds) then RaisesTypeError
      else Returns(AnyExceeds(ds, threshold))
  }

  /** `is_outlier(row)` with `last` standing for `self.last_row`. */
  function IsOutlier(row: Row, last: Option<Row>, threshold: real): (v: Verdict)
    ensures !NoInvalid(row) ==> v == Returns(true)
    ensures NoInvalid(row) && last.None? ==> v == Returns(false)
    ensures v == RaisesTypeError <==>
      NoInvalid(row) && last.Some? &&
      exists i :: 0 <= i < Min(|row|, |last.value|) && (row[i].NonNumeric? || last.value[i].NonNumeric?)
  {
    Classify(row, last, threshold, true)
  }

  // ---------------------------------------------------------------------
  // Properties of the test
  // ---------------------------------------------------------------------

  /** A row holding `None`, NaN or +/-inf is an outlier whatever `last` is. */
  lemma InvalidRowIsOutlier(row: Row, last: Option<Row>, threshold: real)
    requires !NoInvalid(row)
    ensures IsOutlier(row, last, threshold) == Returns(true)
  {
  }

  /** With no previous row, only the invalid-value rule applies: any row free
      of `None`, NaN and +/-inf is kept. */
  lemma FirstRowKeptIffValid(row: Row, threshold: real)
    ensures IsOutlier(row, None, threshold) == Returns(!NoInvalid(row))
  {
  }

  /** With a previous row, a row of finite numbers (of the same width) is an
      outlier exactly when some field moved by strictly more than the
      threshold. */
  lemma JumpRule(row: Row, prev: Row, threshold: real)
    requires AllNum(row) && AllNum(prev) && |row| == |prev|
    ensures IsOutlier(row, Some(prev), threshold) ==
      Returns(exists i :: 0 <= i < |row| && Abs(row[i].x - prev[i].x) > threshold)
  {
    var ds := Diffs(row, prev, true);
    assert !AnyInvalid(row);
    assert !AnyTypeError(ds);
    assert AnyExceeds(ds, threshold) <==>
      exists i :: 0 <= i < |row| && Abs(row[i].x - prev[i].x) > threshold by {
      forall i | 0 <= i < |row| ensures Exceeds(ds[i], threshold) <==> Abs(row[i].x - prev[i].x) > threshold {
        assert ds[i] == Finite(Abs(row[i].x - prev[i].x));
      }
    }
  }

  /** A move equal to the threshold is not a jump. */
  lemma MoveWithinThresholdKept(row: Row, prev: Row, threshold: real)
    requires AllNum(row) && AllNum(prev) && |row| == |prev|
    requires forall i :: 0 <= i < |row| ==> Abs(row[i].x - prev[i].x) <= threshold
    ensures IsOutlier(row, Some(prev), threshold) == Returns(false)
  {
    JumpRule(row, prev, threshold);
  }

  /** A threshold of 0 rejects any change at all. */
  lemma ZeroThresholdRejectsAnyChange(row: Row, prev: Row)
    requires AllNum(row) && AllNum(prev) && |row| == |prev|
    ensures IsOutlier(row, Some(prev), 0.0) == Returns(row != prev)
  {
    JumpRule(row, prev, 0.0);
    if row != prev {
      var i :| 0 <= i < |row| && row[i] != prev[i];
      assert Abs(row[i].x - prev[i].x) > 0.0;
    }
  }

  /** When the previous row holds no `None` (as every accepted row does) the
      `None`-as-0 substitution never changes the outcome: a `None` in the new
      row is refused before any difference is taken. */
  lemma ImputationUnused(row: Row, prev: Row, threshold: real)
    requires NoInvalid(prev)
    ensures IsOutlier(row, Some(prev), threshold) == Classify(row, Some(prev), threshold, false)
  {
    if !AnyInvalid(row) {
      var ds := Diffs(row, prev, true);
      var ds' := Diffs(row, prev, false);
      forall i | 0 <= i < |ds| ensures ds[i] == ds'[i] {
        assert Operand(row[i], true) == row[i] && Operand(prev[i], true) == prev[i];
      }
      assert ds == ds';
    }
  }
}
