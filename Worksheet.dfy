/**
  The cell grid the component receives from the spreadsheet library:
  `toArray(null, true, false, true)` gives rows keyed by row number, each row
  keyed by column label ("A", "B", ..., "AA"). A cell is modelled by its
  string form, with an empty (null) cell as "".
 */
module Worksheet {
  import opened PhpArray

  /** A column label such as "A" or "AB". */
  type Label = string

  /** One row: column label => cell value (its string form), in column order. */
  type Cells = Arr<Label, string>

  /** Row number => row, in row order. */
  type Grid = Arr<int, Cells>

  /** A worksheet of the workbook: its title and its cells. */
  datatype Sheet = Sheet(title: string, grid: Grid)

  function LowerChar(c: char): char {
    if 'A' <= c <= 'Z' then (c as int + 32) as char else c
  }

  /** `strtolower`: ASCII letters only, every other character unchanged. */
  function Lower(s: string): (r: string)
    ensures |r| == |s|
  {
    seq(|s|, i requires 0 <= i < |s| => LowerChar(s[i]))
  }
}
