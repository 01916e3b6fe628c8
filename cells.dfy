/** Values shared by every part of the calendar form: optional values and the
    content of one submitted number field. */
module Cells {

  /** A value that may be absent; stands for PHP's null / an undefined index. */
  datatype Option<+T> = None | Some(value: T)

  /** One month field as submitted: the empty string, or a number kept exactly
      in hundredths (so "12.5" is Num(1250) and the string "0" is Num(0)). */
  datatype Cell = Blank | Num(hundredths: int)

  /** The number `floatval` reads from a field, in hundredths: blank counts as 0. */
  function Value(c: Cell): (v: int)
    ensures c == Blank ==> v == 0
    ensures c.Num? ==> v == c.hundredths
  {
    match c
    case Blank => 0
    case Num(v) => v
  }

  /** PHP `empty()` of a submitted field: true for '' and for "0". */
  function IsPhpEmpty(c: Cell): (empty: bool)
    ensures empty <==> Value(c) == 0
  {
    c == Blank || c == Num(0)
  }

  /** The field at position `i`; a field that was not submitted reads as null,
      which every consumer here treats like ''. */
  function CellAt(s: seq<Cell>, i: nat): Cell
  {
    if i < |s| then s[i] else Blank
  }
}
