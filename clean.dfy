/** The cleaning of src/nbdocs/clean.py: `ClearExecutionCountPreprocessor`
    empties the execution counts of code cells and of their outputs, and
    `MetadataCleaner` runs the metadata clearer, then, when asked, the
    execution-count clearer. The metadata clearer (nbconvert's
    `ClearMetadataPreprocessor`) is not part of this model: it is given as two
    functions, one for the notebook's metadata and one for a cell's. */
module Clean {
  import opened Wrappers
  import opened Notebook

  // ---------------------------------------------------------------------
  // Execution counts

  /** An output after `output.execution_count = None`, which runs only for
      outputs that have the key. */
  function ClearedOutput(o: Output): (r: Output)
    ensures HasExecutionCountKey(r) <==> HasExecutionCountKey(o)
    ensures r.ExecuteResult? ==> r.executionCount.None? && r.data == o.data && r.metadata == o.metadata
    ensures !HasExecutionCountKey(o) ==> r == o
  {
    if HasExecutionCountKey(o) then o.(executionCount := None) else o
  }

  function ClearedOutputs(outputs: seq<Output>): (r: seq<Output>)
    ensures |r| == |outputs| && forall k | 0 <= k < |r| :: r[k] == ClearedOutput(outputs[k])
  {
    seq(|outputs|, k requires 0 <= k < |outputs| => ClearedOutput(outputs[k]))
  }

  /** The value of a cell after `preprocess_cell`: a code cell loses its
      execution count and those of its outputs; other cells are untouched. */
  function ClearedCell(v: CellValue): CellValue {
    if v.kind == Code then v.(executionCount := None, outputs := ClearedOutputs(v.outputs)) else v
  }

  /** A cell without execution counts: what the clearer leaves behind. */
  predicate CountsCleared(v: CellValue) {
    v.kind == Code ==>
      v.executionCount.None? &&
      forall k | 0 <= k < |v.outputs| :: v.outputs[k].ExecuteResult? ==> v.outputs[k].executionCount.None?
  }

  /** `ClearExecutionCountPreprocessor.preprocess_cell`: the cell is changed in
      place and returned. The resources are passed through and not modelled. */
  method ClearExecutionCount(cell: Cell) returns (r: Cell)
    modifies cell
    ensures r == cell && cell.Value() == ClearedCell(old(cell.Value()))
  {
    if cell.kind == Code {
      cell.executionCount := None;
      ghost var outputs := cell.outputs;
      var i := 0;
      while i < |cell.outputs|
        invariant 0 <= i <= |outputs| == |cell.outputs|
        invariant forall k | 0 <= k < i :: cell.outputs[k] == ClearedOutput(outputs[k])
        invariant forall k | i <= k < |outputs| :: cell.outputs[k] == outputs[k]
        invariant cell.Value() == old(cell.Value()).(executionCount := None, outputs := cell.outputs)
      {
        if HasExecutionCountKey(cell.outputs[i]) {
          cell.outputs := cell.outputs[i := cell.outputs[i].(executionCount := None)];
        }
        i := i + 1;
      }
      assert cell.outputs == ClearedOutputs(outputs);
    }
    r := cell;
  }

  /** The preprocessor's walk over the notebook (nbconvert's
      `Preprocessor.preprocess`): `preprocess_cell` on every cell in order. */
  method ClearExecutionCounts(nb: Notebook)
    requires nb.Valid()
    modifies set c | c in nb.cells
    ensures Values(nb.cells) == ClearedCells(old(Values(nb.cells)))
  {
    ghost var vals := Values(nb.cells);
    var i := 0;
    while i < |nb.cells|
      invariant 0 <= i <= |nb.cells|
      invariant forall k | 0 <= k < i :: nb.cells[k].Value() == ClearedCell(vals[k])
      invariant forall k | i <= k < |nb.cells| :: nb.cells[k].Value() == vals[k]
    {
      var _ := ClearExecutionCount(nb.cells[i]);
      i := i + 1;
    }
  }

  function ClearedCells(vals: seq<CellValue>): (r: seq<CellValue>)
    ensures |r| == |vals| && forall k | 0 <= k < |r| :: r[k] == ClearedCell(vals[k])
  {
    seq(|vals|, k requires 0 <= k < |vals| => ClearedCell(vals[k]))
  }

  // ---------------------------------------------------------------------
  // Properties of the execution-count clearer

  /** Only code cells change; a code cell keeps its source, metadata and the
      number and order of its outputs; its count is gone; an output keeps its
      kind, and only an execute_result, the one output with the key, changes,
      and only in its count. */
  lemma ClearedCellSpec(v: CellValue)
    ensures v.kind != Code ==> ClearedCell(v) == v
    ensures ClearedCell(v).kind == v.kind && ClearedCell(v).source == v.source
    ensures ClearedCell(v).metadata == v.metadata && |ClearedCell(v).outputs| == |v.outputs|
    ensures v.kind == Code ==> ClearedCell(v).executionCount.None?
    ensures forall k | 0 <= k < |v.outputs| ::
      && (ClearedCell(v).outputs[k].ExecuteResult? <==> v.outputs[k].ExecuteResult?)
      && (!v.outputs[k].ExecuteResult? ==> ClearedCell(v).outputs[k] == v.outputs[k])
      && (v.outputs[k].ExecuteResult? ==>
            ClearedCell(v).outputs[k] == v.outputs[k].(executionCount := if v.kind == Code then None else v.outputs[k].executionCount))
  {
  }

  /** After clearing, no count is left. */
  lemma ClearedCellCleared(v: CellValue)
    ensures CountsCleared(ClearedCell(v))
  {
  }

  /** Clearing changes a cell exactly when it still has a count: the cleared
      cells are the fixed points. */
  lemma ClearedCellFixed(v: CellValue)
    ensures ClearedCell(v) == v <==> CountsCleared(v)
  {
    if v.kind == Code && CountsCleared(v) {
      forall k | 0 <= k < |v.outputs| ensures ClearedOutput(v.outputs[k]) == v.outputs[k] {
        if v.outputs[k].ExecuteResult? {
          assert v.outputs[k].executionCount.None?;
        }
      }
      assert ClearedOutputs(v.outputs) == v.outputs;
    }
    if ClearedCell(v) == v {
      ClearedCellCleared(v);
    }
  }

  /** Clearing twice is clearing once. */
  lemma ClearedCellIdempotent(v: CellValue)
    ensures ClearedCell(ClearedCell(v)) == ClearedCell(v)
  {
    ClearedCellCleared(v);
    ClearedCellFixed(ClearedCell(v));
  }

  // ---------------------------------------------------------------------
  // MetadataCleaner

  /** The value of a cell after the metadata clearer ran on it. */
  function MetadataCleared(v: CellValue, clearCell: CellValue -> Metadata): (r: CellValue)
    ensures r.kind == v.kind && r.source == v.source && r.outputs == v.outputs && r.executionCount == v.executionCount
    ensures r.metadata == clearCell(v)
  {
    v.(metadata := clearCell(v))
  }

  /** The value of a cell after `MetadataCleaner.__call__`. */
  function CleanedCell(v: CellValue, clearCell: CellValue -> Metadata, clearExecutionCount: bool): CellValue {
    var m := MetadataCleared(v, clearCell);
    if clearExecutionCount then ClearedCell(m) else m
  }

  function CleanedCells(vals: seq<CellValue>, clearCell: CellValue -> Metadata, clearExecutionCount: bool): (r: seq<CellValue>)
    ensures |r| == |vals| && forall k | 0 <= k < |r| :: r[k] == CleanedCell(vals[k], clearCell, clearExecutionCount)
  {
    seq(|vals|, k requires 0 <= k < |vals| => CleanedCell(vals[k], clearCell, clearExecutionCount))
  }

  /** `MetadataCleaner`: a metadata clearer and an execution-count clearer. */
  class MetadataCleaner {
    /** The metadata clearer, on the notebook's metadata and on a cell. */
    const clearNbMetadata: Metadata -> Metadata
    const clearCellMetadata: CellValue -> Metadata

    constructor (clearNbMetadata: Metadata -> Metadata, clearCellMetadata: CellValue -> Metadata)
      ensures this.clearNbMetadata == clearNbMetadata && this.clearCellMetadata == clearCellMetadata
    {
      this.clearNbMetadata := clearNbMetadata;
      this.clearCellMetadata := clearCellMetadata;
    }

    /** The metadata clearer's walk over the notebook. */
    method ClearMetadata(nb: Notebook)
      requires nb.Valid()
      modifies nb, set c | c in nb.cells
      ensures nb.cells == old(nb.cells) && nb.metadata == clearNbMetadata(old(nb.metadata))
      ensures nb.nbformat == old(nb.nbformat) && nb.nbformatMinor == old(nb.nbformatMinor)
      ensures Values(nb.cells) == CleanedCells(old(Values(nb.cells)), clearCellMetadata, false)
    {
      nb.metadata := clearNbMetadata(nb.metadata);
      ghost var vals := Values(nb.cells);
      var i := 0;
      while i < |nb.cells|
        invariant nb.cells == old(nb.cells) && nb.metadata == clearNbMetadata(old(nb.metadata))
        invariant nb.nbformat == old(nb.nbformat) && nb.nbformatMinor == old(nb.nbformatMinor)
        invariant 0 <= i <= |nb.cells|
        invariant forall k | 0 <= k < i :: nb.cells[k].Value() == MetadataCleared(vals[k], clearCellMetadata)
        invariant forall k | i <= k < |nb.cells| :: nb.cells[k].Value() == vals[k]
      {
        var cell := nb.cells[i];
        cell.metadata := clearCellMetadata(cell.Value());
        i := i + 1;
      }
    }

    /** `MetadataCleaner.__call__`: the metadata clearer, then the
        execution-count clearer when `clear_execution_count` is set. The same
        notebook is returned; the resources are not modelled. */
    method Call(nb: Notebook, clearExecutionCount: bool) returns (r: Notebook)
      requires nb.Valid()
      modifies nb, set c | c in nb.cells
      ensures r == nb && nb.cells == old(nb.cells) && nb.metadata == clearNbMetadata(old(nb.metadata))
      ensures nb.nbformat == old(nb.nbformat) && nb.nbformatMinor == old(nb.nbformatMinor)
      ensures Values(nb.cells) == CleanedCells(old(Values(nb.cells)), clearCellMetadata, clearExecutionCount)
    {
      ghost var vals := Values(nb.cells);
      ClearMetadata(nb);
      if clearExecutionCount {
        ghost var cleaned := Values(nb.cells);
        ClearExecutionCounts(nb);
        assert Values(nb.cells) == CleanedCells(vals, clearCellMetadata, true) by {
          forall k | 0 <= k < |vals| ensures Values(nb.cells)[k] == CleanedCell(vals[k], clearCellMetadata, true) {
            assert cleaned[k] == MetadataCleared(vals[k], clearCellMetadata);
          }
        }
      }
      r := nb;
    }
  }

  /** `clean_nb`: a fresh cleaner run on the notebook. The clearer's settings
      are parameters here. */
  method CleanNb(nb: Notebook, clearNbMetadata: Metadata -> Metadata, clearCellMetadata: CellValue -> Metadata, clearExecutionCount: bool)
    requires nb.Valid()
    modifies nb, set c | c in nb.cells
    ensures nb.cells == old(nb.cells) && nb.metadata == clearNbMetadata(old(nb.metadata))
    ensures nb.nbformat == old(nb.nbformat) && nb.nbformatMinor == old(nb.nbformatMinor)
    ensures Values(nb.cells) == CleanedCells(old(Values(nb.cells)), clearCellMetadata, clearExecutionCount)
  {
    var cleaner := new MetadataCleaner(clearNbMetadata, clearCellMetadata);
    var _ := cleaner.Call(nb, clearExecutionCount);
  }

  // ---------------------------------------------------------------------
  // Properties of the cleaner

  /** Without `clear_execution_count` every count survives; with it none does. */
  lemma CleanedCounts(v: CellValue, clearCell: CellValue -> Metadata)
    ensures CleanedCell(v, clearCell, false).executionCount == v.executionCount
    ensures CleanedCell(v, clearCell, false).outputs == v.outputs
    ensures CountsCleared(CleanedCell(v, clearCell, true))
  {
    ClearedCellCleared(MetadataCleared(v, clearCell));
  }

  /** Whatever the flag, the cell's metadata is the clearer's. */
  lemma CleanedMetadata(v: CellValue, clearCell: CellValue -> Metadata, clearExecutionCount: bool)
    ensures CleanedCell(v, clearCell, clearExecutionCount).metadata == clearCell(v)
    ensures CleanedCell(v, clearCell, clearExecutionCount).source == v.source
  {
  }

  /** The documented run: a code cell with count 1 and an execute_result with
      count 1 keeps both counts when cleaned without the flag; cleaning it again
      with the flag clears both. */
  lemma CleanExample(v: CellValue, clearCell: CellValue -> Metadata)
    requires v.kind == Code && v.executionCount == Some(1)
    requires |v.outputs| == 1 && v.outputs[0].ExecuteResult? && v.outputs[0].executionCount == Some(1)
    ensures CleanedCell(v, clearCell, false).executionCount == Some(1)
    ensures CleanedCell(v, clearCell, false).outputs[0].executionCount == Some(1)
    ensures CleanedCell(CleanedCell(v, clearCell, false), clearCell, true).executionCount.None?
    ensures CleanedCell(CleanedCell(v, clearCell, false), clearCell, true).outputs[0].executionCount.None?
  {
    CleanedCounts(v, clearCell);
    CleanedCounts(CleanedCell(v, clearCell, false), clearCell);
  }
}
