/**
 The values the data logger handles: one field of a message as the logger
 sees it after extraction, and a row of them (one per configured field).
 */
module Values {

  datatype Option<+T> = None | Some(value: T)

  /** A field value. `Absent` is Python's `None`; `NaN` and `Inf` are the
      special floats; `Num` is any finite number (int or float); `NonNumeric`
      is anything else a path can resolve to (a string, a sub-message), on
      which arithmetic raises a `TypeError`. */
  datatype Value = Absent | NaN | Inf(negative: bool) | Num(x: real) | NonNumeric

  /** The values the logger refuses outright: `None`, NaN and +/-inf. */
  predicate Invalid(v: Value)
  {
    v.Absent? || v.NaN? || v.Inf?
  }

  /** One sample: a value per configured field, in field order. */
  type Row = seq<Value>

  predicate NoInvalid(row: Row)
  {
    forall i :: 0 <= i < |row| ==> !Invalid(row[i])
  }

  /** Every entry is a finite number. */
  predicate AllNum(row: Row)
  {
    forall i :: 0 <= i < |row| ==> row[i].Num?
  }

  function Min(a: int, b: int): int
  {
    if a <= b then a else b
  }

  function Abs(r: real): real
  {
    if r < 0.0 then -r else r
  }
}
