/** An entry of the distance matrix: a finite float, or numpy's NaN for "no distance". */
module Cells {

  datatype Cell = Finite(value: real) | NaN

  /** `cell < threshold` on a float: NaN compares false with everything. */
  predicate Below(d: Cell, threshold: real) {
    d.Finite? && d.value < threshold
  }
}
