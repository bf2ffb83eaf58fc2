/** The Markdown fix-up of src/nbdocs/process_md.py: separating a code cell's
    source from its output, dropping empty code, choosing the open or the
    collapsed output wrapper, and marking each cell with the separator. */
module ProcessMd {
  import opened Text
  import opened Seqs
  import opened FlagGrammar
  import opened Fences
  import opened Splitting

  const OutputOpen: string := "<details open> <summary>output</summary>  \n"
  const OutputCollapsed: string := "<details> <summary>output</summary>  \n"
  const OutputClose: string := "</details>\n"

  /** A fence line that closes a code block. */
  const CodeEnd: string := Fence + "\n"

  /** `separate_source_output`: everything up to and including the last
      ```` ```\n ```` is the source, the rest is the output. */
  function SeparateSourceOutput(cell: string): (string, string) {
    var blocks := Split(cell, CodeEnd);
    (Join(blocks[..|blocks| - 1], CodeEnd) + CodeEnd, blocks[|blocks| - 1])
  }

  /** `check_code_cell_empty`: no line is left with content once the fence
      openers are deleted. */
  predicate CheckCodeCellEmpty(codeCell: string) {
    Filter(Stripped(Split(RemoveFenceOpeners(codeCell), "\n")), NonEmpty) == []
  }

  /** The code part `format_code_cell` keeps: without the collapse flag lines
      when they are there, and nothing when no code is left. */
  function FormattedCode(code: string): string {
    var kept := if Search(ReCollapse, code) then LStrip(Sub(ReCollapse, code)) else code;
    if CheckCodeCellEmpty(kept) then "" else kept
  }

  function OutputWrapper(collapsed: bool): string {
    if collapsed then OutputCollapsed else OutputOpen
  }

  /** The layout of a formatted code cell. */
  function Framed(code: string, wrapper: string, output: string): string {
    CellSeparator + code + wrapper + output + OutputClose
  }

  /** `format_code_cell` */
  function FormatCodeCell(codeCell: string): string {
    var parts := SeparateSourceOutput(codeCell);
    Framed(FormattedCode(parts.0), OutputWrapper(Search(ReCollapse, parts.0)), parts.1)
  }

  /** `format_md_cell` */
  function FormatMdCell(mdCell: string): string {
    CellSeparator + mdCell
  }

  /** `process_md_cells`: a cell that starts with a fence is a code cell. */
  function ProcessMdCells(cells: seq<string>): (r: seq<string>)
    ensures |r| == |cells|
  {
    seq(|cells|, k requires 0 <= k < |cells| =>
      if StartsWith(cells[k], Fence) then FormatCodeCell(cells[k]) else FormatMdCell(cells[k]))
  }

  // ---------------------------------------------------------------------
  // separate_source_output

  /** With a closing fence in the cell, source and output put back together
      give the cell; the output holds no closing fence and the source ends
      with one. */
  lemma SeparateRoundTrip(cell: string)
    requires Contains(cell, CodeEnd)
    ensures SeparateSourceOutput(cell).0 + SeparateSourceOutput(cell).1 == cell
    ensures !Contains(SeparateSourceOutput(cell).1, CodeEnd)
    ensures EndsWith(SeparateSourceOutput(cell).0, CodeEnd)
  {
    var blocks := Split(cell, CodeEnd);
    SplitWithSep(cell, CodeEnd);
    SplitJoin(cell, CodeEnd);
    JoinSnoc(blocks, CodeEnd);
    SplitPiecesFree(cell, CodeEnd);
    var src := Join(blocks[..|blocks| - 1], CodeEnd) + CodeEnd;
    assert src[|src| - |CodeEnd|..] == CodeEnd;
  }

  /** Without a closing fence the whole cell is output and the source is a
      bare closing fence. */
  lemma SeparateWithoutFence(cell: string)
    requires !Contains(cell, CodeEnd)
    ensures SeparateSourceOutput(cell) == (CodeEnd, cell)
  {
    SplitWithoutSep(cell, CodeEnd);
    var blocks := Split(cell, CodeEnd);
    assert blocks[..|blocks| - 1] == [];
    assert Join([], CodeEnd) + CodeEnd == CodeEnd;
  }

  // ---------------------------------------------------------------------
  // check_code_cell_empty

  /** A code cell counts as empty exactly when, once its fence openers are
      deleted, only whitespace is left. */
  lemma CheckCodeCellEmptyIffBlank(codeCell: string)
    ensures CheckCodeCellEmpty(codeCell) <==> AllSpace(RemoveFenceOpeners(codeCell))
  {
    var rest := RemoveFenceOpeners(codeCell);
    var lines := Split(rest, "\n");
    var f := FilterIndices(Stripped(lines), NonEmpty);
    assert CheckCodeCellEmpty(codeCell) <==> forall k | 0 <= k < |lines| :: AllSpace(lines[k]) by {
      if !CheckCodeCellEmpty(codeCell) {
        assert Stripped(lines)[f[0]] == Strip(lines[f[0]]);
      }
      if exists k | 0 <= k < |lines| :: !AllSpace(lines[k]) {
        var k :| 0 <= k < |lines| && !AllSpace(lines[k]);
        assert NonEmpty(Stripped(lines)[k]);
      }
    }
    SplitJoin(rest, "\n");
    assert AllSpace("\n");
    JoinAllSpace(lines, "\n");
  }

  // ---------------------------------------------------------------------
  // format_code_cell

  lemma FramedEnds(code: string, wrapper: string, output: string)
    ensures StartsWith(Framed(code, wrapper, output), CellSeparator)
    ensures EndsWith(Framed(code, wrapper, output), wrapper + output + OutputClose)
    ensures EndsWith(Framed(code, wrapper, output), output + OutputClose)
    ensures EndsWith(Framed(code, wrapper, output), OutputClose)
  {
    var r := Framed(code, wrapper, output);
    assert r == (CellSeparator + code) + (wrapper + output + OutputClose);
    assert r[..|CellSeparator|] == CellSeparator;
    var t := wrapper + output + OutputClose;
    assert r[|r| - |t|..] == t;
    assert t[|wrapper|..] == output + OutputClose;
    assert t[|t| - |OutputClose|..] == OutputClose;
  }

  /** The result opens with the separator and closes with the output followed
      by `</details>\n`. */
  lemma FormatCodeCellFrame(codeCell: string)
    ensures StartsWith(FormatCodeCell(codeCell), CellSeparator)
    ensures EndsWith(FormatCodeCell(codeCell), SeparateSourceOutput(codeCell).1 + OutputClose)
  {
    var parts := SeparateSourceOutput(codeCell);
    FramedEnds(FormattedCode(parts.0), OutputWrapper(Search(ReCollapse, parts.0)), parts.1);
  }

  /** The collapsed wrapper is chosen exactly when the source part has a
      `collapse_output` flag line; the open one otherwise. */
  lemma FormatCodeCellWrapper(codeCell: string)
    ensures var parts := SeparateSourceOutput(codeCell);
      && (HasFlagLine(ReCollapse, parts.0) ==> EndsWith(FormatCodeCell(codeCell), OutputCollapsed + parts.1 + OutputClose))
      && (!HasFlagLine(ReCollapse, parts.0) ==> EndsWith(FormatCodeCell(codeCell), OutputOpen + parts.1 + OutputClose))
  {
    var parts := SeparateSourceOutput(codeCell);
    SearchIffFlagLine(ReCollapse, parts.0);
    FramedEnds(FormattedCode(parts.0), OutputWrapper(Search(ReCollapse, parts.0)), parts.1);
  }

  /** With the collapse flag the flag lines are deleted and the code is
      left-stripped; without it the code is kept as it is. Code that is
      empty after that is dropped entirely. */
  lemma FormattedCodeSpec(code: string)
    ensures var kept := if HasFlagLine(ReCollapse, code) then LStrip(Sub(ReCollapse, code)) else code;
      && (FormattedCode(code) == "" <==> AllSpace(RemoveFenceOpeners(kept)))
      && (FormattedCode(code) != "" ==> FormattedCode(code) == kept)
    ensures HasFlagLine(ReCollapse, code) ==> |Sub(ReCollapse, code)| < |code|
  {
    SearchIffFlagLine(ReCollapse, code);
    SubShorter(code);
    var kept := if Search(ReCollapse, code) then LStrip(Sub(ReCollapse, code)) else code;
    assert FormattedCode(code) == if CheckCodeCellEmpty(kept) then "" else kept;
    KeptBlank(kept);
  }

  lemma SubShorter(code: string)
    ensures Search(ReCollapse, code) ==> |Sub(ReCollapse, code)| < |code|
  {
    SubWithoutMatch(ReCollapse, code);
  }

  /** Dropping blank code and keeping the rest: the result is empty exactly
      when the code is blank. */
  lemma KeptBlank(kept: string)
    ensures (if CheckCodeCellEmpty(kept) then "" else kept) == "" <==> AllSpace(RemoveFenceOpeners(kept))
  {
    CheckCodeCellEmptyIffBlank(kept);
    if kept == "" {
      assert RemoveFenceOpeners(kept) == "";
    }
  }

  // ---------------------------------------------------------------------
  // format_md_cell, process_md_cells

  /** A markdown cell only gets the separator in front. */
  lemma FormatMdCellSpec(mdCell: string)
    ensures StartsWith(FormatMdCell(mdCell), CellSeparator)
    ensures FormatMdCell(mdCell)[|CellSeparator|..] == mdCell
  {
  }

  /** Length and order are kept; each cell is formatted as a code cell when it
      starts with a fence and as a markdown cell otherwise, and every result
      starts with the separator. */
  lemma ProcessMdCellsSpec(cells: seq<string>)
    ensures forall k | 0 <= k < |cells| :: StartsWith(ProcessMdCells(cells)[k], CellSeparator)
    ensures forall k | 0 <= k < |cells| && StartsWith(cells[k], Fence) ::
      ProcessMdCells(cells)[k] == FormatCodeCell(cells[k]) && EndsWith(ProcessMdCells(cells)[k], OutputClose)
    ensures forall k | 0 <= k < |cells| && !StartsWith(cells[k], Fence) ::
      ProcessMdCells(cells)[k] == CellSeparator + cells[k]
  {
    forall k | 0 <= k < |cells|
      ensures StartsWith(ProcessMdCells(cells)[k], CellSeparator)
      ensures StartsWith(cells[k], Fence) ==> EndsWith(ProcessMdCells(cells)[k], OutputClose)
    {
      FormatCodeCellFrame(cells[k]);
      var tail := SeparateSourceOutput(cells[k]).1 + OutputClose;
      var r := FormatCodeCell(cells[k]);
      assert r[|r| - |tail|..][|tail| - |OutputClose|..] == OutputClose;
    }
  }
}
