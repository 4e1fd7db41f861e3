/** A value of the spreadsheet column the formatters are applied to: text, a
    number, or an empty cell. Both formatters only rewrite text. */
module Cells {
  datatype Cell = Text(s: string) | Number(x: real) | Blank
}
