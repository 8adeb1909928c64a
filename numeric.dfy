/**
 * A table cell after `pandas.to_numeric(..., errors='coerce')`: a number,
 * or NaN when the cell was missing or not numeric. Every comparison with
 * NaN is false, so a NaN row never passes a threshold.
 */
module Numeric {
  datatype Cell = Num(value: real) | NaN

  /** `cell <= t` */
  predicate AtMost(c: Cell, t: real) { c.Num? && c.value <= t }

  /** `cell >= t` */
  predicate AtLeast(c: Cell, t: real) { c.Num? && c.value >= t }
}
