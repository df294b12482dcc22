/** Loosely typed dictionary and spreadsheet values. */
module Cells {
  import opened Wrappers

  /** A value held in a Python dict or a sheet cell: text or a number. */
  datatype Value = Text(text: string) | Num(number: real)

  /** Python's `float(v)`. A number converts to itself; text goes through the
      float parser, which is a parameter of the model (`None` when Python's
      `float()` would raise `ValueError`). */
  function ToFloat(v: Value, parse: string -> Option<real>): (r: Option<real>)
    ensures v.Num? ==> r == Some(v.number)
    ensures v.Text? ==> r == parse(v.text)
  {
    match v
    case Num(x) => Some(x)
    case Text(s) => parse(s)
  }
}
