/** The earlier cell formatting of src/nbdocs/flags.py (and its copy of
    `format_code_cell` in src/nbdocs/process.py): code and markdown cells alike
    only get the separator in front. */
module PlainFormat {
  import opened Text
  import opened FlagGrammar
  import Fences

  function FormatCodeCell(codeCell: string): string {
    CellSeparator + codeCell
  }

  function FormatMdCell(mdCell: string): string {
    CellSeparator + mdCell
  }

  /** `process_md_cells`: dispatches on the fence prefix, to two formatters
      that happen to agree. */
  function ProcessMdCells(cells: seq<string>): (r: seq<string>)
    ensures |r| == |cells|
  {
    seq(|cells|, k requires 0 <= k < |cells| =>
      if StartsWith(cells[k], Fences.Fence) then FormatCodeCell(cells[k]) else FormatMdCell(cells[k]))
  }

  /** Removing the separator gives the cell back. */
  lemma FormatCodeCellRoundTrip(codeCell: string)
    ensures StartsWith(FormatCodeCell(codeCell), CellSeparator)
    ensures FormatCodeCell(codeCell)[|CellSeparator|..] == codeCell
  {
  }

  /** Every cell, code or not, becomes the separator followed by the cell
      unchanged; length and order are kept. */
  lemma ProcessMdCellsUniform(cells: seq<string>)
    ensures forall k | 0 <= k < |cells| ::
      StartsWith(ProcessMdCells(cells)[k], CellSeparator) && ProcessMdCells(cells)[k][|CellSeparator|..] == cells[k]
  {
  }
}
