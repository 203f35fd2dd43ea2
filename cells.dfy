/** The values a data-frame cell holds after `read_csv`. */
module Cells {
  import opened Wrappers

  /** A text cell, an integer cell, a floating-point cell, or a missing value (`NaN`). */
  datatype Cell = Text(s: string) | Int(i: int) | Real(x: real) | Missing

  /** A cell pandas can rank or average: a number or a missing value. */
  predicate IsNumeric(c: Cell) { !c.Text? }

  /** The number a numeric cell holds; `None` for a missing value. */
  function NumberOf(c: Cell): (r: Option<real>)
    ensures r.None? <==> c.Missing? || c.Text?
  {
    match c
    case Int(i) => Some(i as real)
    case Real(x) => Some(x)
    case _ => None
  }

  /** The cell written for an optional number. */
  function FromNumber(r: Option<real>): (c: Cell)
    ensures NumberOf(c) == r && IsNumeric(c)
  {
    match r
    case Some(x) => Real(x)
    case None => Missing
  }

}
