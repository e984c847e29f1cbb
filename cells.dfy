/** Cell values and the tables the readers produce. */
module Cells {

  /** One cell. CSV rows hold only `Text`; a decoded worksheet may also hold
      numbers, booleans and blanks. `Num` carries the text JavaScript's
      `String(n)` gives for the number (floating point is not modelled);
      `Undefined` is a blank worksheet cell, and also what indexing past the
      end of a short row yields. */
  datatype Cell = Text(s: string) | Num(shown: string) | Bool(b: bool) | Undefined

  /** `String(cell)`. */
  function Show(c: Cell): string {
    match c
    case Text(s) => s
    case Num(shown) => shown
    case Bool(b) => if b then "true" else "false"
    case Undefined => "undefined"
  }

  /** JavaScript's `!cell`: the empty string, 0, -0, NaN, false and undefined. */
  predicate IsFalsy(c: Cell) {
    match c
    case Text(s) => s == ""
    case Num(shown) => shown == "0" || shown == "NaN"
    case Bool(b) => !b
    case Undefined => true
  }

  /** A row of parsed CSV fields as cells. */
  function TextRow(fields: seq<string>): (r: seq<Cell>)
    ensures |r| == |fields|
    ensures forall j :: 0 <= j < |r| ==> r[j].Text? && r[j].s == fields[j]
  {
    seq(|fields|, j requires 0 <= j < |fields| => Text(fields[j]))
  }

  /** What a reader returns: every row including the header row as it was
      read, and the cleaned column names derived from the header row. */
  datatype Table = Table(data: seq<seq<Cell>>, columns: seq<string>)

  /** Why a file was not taken into the registry. */
  datatype LoadError =
    | EmptyCsvFile
    | EmptyExcelFile
    | UnsupportedFileType(extension: string)
    | ReadFailure
    | WorkbookDecodeFailure
}
