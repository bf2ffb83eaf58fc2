/** `process_markdown_cell` and `process_code_cell` (src/nbdocs/flags.py and
    its copy src/nbdocs/process.py): mark a cell with `###cell` before the
    export, hiding the cell, its code or its outputs as its flag lines ask. */
module CellProcess {
  import opened Text
  import opened Wrappers
  import opened FlagGrammar
  import opened Notebook

  /** The marked markdown cell: the marker line, then the old source. */
  function MarkedMarkdown(v: CellValue): CellValue {
    v.(source := CellFlag + "\n" + v.source)
  }

  /** The `hide_output` step: drop the outputs and the `output_code` flag
      lines, then left-strip the source. */
  function HideOutputStep(v: CellValue): CellValue {
    if Search(ReHideOutput, v.source) then
      v.(outputs := [], source := LStrip(Sub(ReOutputCode, v.source)))
    else v
  }

  /** The `hide_input` step, on the source the previous step left: the source
      becomes the bare marker, otherwise the marker line is put in front. */
  function HideInputStep(v: CellValue): CellValue {
    if Search(ReHideInput, v.source) then v.(source := CellFlag)
    else v.(source := CellFlag + "\n" + v.source)
  }

  /** What `process_code_cell` makes of a cell: `None` drops it. */
  function ProcessedCode(v: CellValue): Option<CellValue> {
    if v.source == "" || Search(ReHide, v.source) then None
    else Some(HideInputStep(HideOutputStep(v)))
  }

  method ProcessMarkdownCell(cell: Cell) returns (r: Cell)
    modifies cell
    ensures r == cell && cell.Value() == MarkedMarkdown(old(cell.Value()))
  {
    cell.source := CellFlag + "\n" + cell.source;
    r := cell;
  }

  /** The statements run in the order of the source: the drop test first,
      then `hide_output`, then `hide_input` on the updated source. */
  method ProcessCodeCell(cell: Cell) returns (r: Option<Cell>)
    modifies cell
    ensures r.None? <==> ProcessedCode(old(cell.Value())).None?
    ensures r.None? ==> cell.Value() == old(cell.Value())
    ensures r.Some? ==> r.value == cell && cell.Value() == ProcessedCode(old(cell.Value())).value
  {
    if cell.source == "" || Search(ReHide, cell.source) {
      return None;
    }
    if Search(ReHideOutput, cell.source) {
      cell.outputs := [];
      cell.source := LStrip(Sub(ReOutputCode, cell.source));
    }
    if Search(ReHideInput, cell.source) {
      cell.source := CellFlag;
    } else {
      cell.source := CellFlag + "\n" + cell.source;
    }
    r := Some(cell);
  }

  // ---------------------------------------------------------------------
  // Properties

  /** A markdown cell gets exactly the marker line in front; nothing else changes. */
  lemma MarkedMarkdownSpec(v: CellValue)
    ensures StartsWith(MarkedMarkdown(v).source, CellFlag + "\n")
    ensures MarkedMarkdown(v).source[|CellFlag| + 1..] == v.source
    ensures MarkedMarkdown(v).(source := v.source) == v
  {
  }

  /** A code cell is dropped exactly when its source is empty or it has a
      `hide` flag line. */
  lemma ProcessedCodeDropped(v: CellValue)
    ensures ProcessedCode(v).None? <==> v.source == "" || HasFlagLine(ReHide, v.source)
  {
    SearchIffFlagLine(ReHide, v.source);
  }

  /** Every kept cell's source starts with the marker; its type, metadata and
      execution count are kept. */
  lemma ProcessedCodeMarked(v: CellValue)
    requires ProcessedCode(v).Some?
    ensures StartsWith(ProcessedCode(v).value.source, CellFlag)
    ensures ProcessedCode(v).value.kind == v.kind
    ensures ProcessedCode(v).value.metadata == v.metadata
    ensures ProcessedCode(v).value.executionCount == v.executionCount
  {
  }

  /** The outputs are emptied exactly when the cell has a `hide_output` flag
      line, and are kept otherwise. */
  lemma ProcessedCodeOutputs(v: CellValue)
    requires ProcessedCode(v).Some?
    ensures HasFlagLine(ReHideOutput, v.source) ==> ProcessedCode(v).value.outputs == []
    ensures !HasFlagLine(ReHideOutput, v.source) ==> ProcessedCode(v).value.outputs == v.outputs
  {
    SearchIffFlagLine(ReHideOutput, v.source);
  }

  /** `hide_input`, looked for after the `hide_output` step, leaves the bare
      marker; otherwise the marker line precedes the source of that step. */
  lemma ProcessedCodeSource(v: CellValue)
    requires ProcessedCode(v).Some?
    ensures var u := HideOutputStep(v);
      && (HasFlagLine(ReHideInput, u.source) ==> ProcessedCode(v).value.source == CellFlag)
      && (!HasFlagLine(ReHideInput, u.source) ==> ProcessedCode(v).value.source == CellFlag + "\n" + u.source)
  {
    SearchIffFlagLine(ReHideInput, HideOutputStep(v).source);
  }

  /** A cell with both `hide_output` and (after that step) `hide_input` ends
      with neither code nor outputs. */
  lemma HiddenInputAndOutput(v: CellValue)
    requires ProcessedCode(v).Some?
    requires HasFlagLine(ReHideOutput, v.source) && HasFlagLine(ReHideInput, HideOutputStep(v).source)
    ensures ProcessedCode(v).value.source == CellFlag && ProcessedCode(v).value.outputs == []
  {
    ProcessedCodeOutputs(v);
    ProcessedCodeSource(v);
  }

  /** Without an `output_code` line the `hide_output` step only left-strips the
      source, so the `hide_output` line itself stays. */
  lemma HideOutputKeepsLines(v: CellValue)
    requires HasFlagLine(ReHideOutput, v.source) && !HasFlagLine(ReOutputCode, v.source)
    ensures HideOutputStep(v).source == LStrip(v.source)
  {
    SearchIffFlagLine(ReHideOutput, v.source);
    SearchIffFlagLine(ReOutputCode, v.source);
    SubWithoutMatch(ReOutputCode, v.source);
  }

  /** A cell without flag lines is kept whole, behind the marker line. */
  lemma UnflaggedCode(v: CellValue)
    requires v.source != ""
    requires !HasFlagLine(ReHide, v.source) && !HasFlagLine(ReHideOutput, v.source) && !HasFlagLine(ReHideInput, v.source)
    ensures ProcessedCode(v) == Some(v.(source := CellFlag + "\n" + v.source))
  {
    SearchIffFlagLine(ReHide, v.source);
    SearchIffFlagLine(ReHideOutput, v.source);
    SearchIffFlagLine(ReHideInput, v.source);
  }
}
