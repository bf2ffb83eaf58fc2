/** The notebook shapes of src/nbdocs/typing.py: code, markdown and raw cells;
    stream, execute_result, display_data and error outputs. A cell is an
    object whose fields the pipeline assigns in place; its `CellValue` is a
    snapshot of those fields. */
module Notebook {
  import opened Wrappers

  /** A metadata value: a string, an integer or a nested mapping. */
  datatype MetaValue = MetaStr(str: string) | MetaInt(num: int) | MetaDict(entries: map<string, MetaValue>)

  type Metadata = map<string, MetaValue>

  datatype CellType = Markdown | Code | Raw

  /** The `cell_type` string of a cell. */
  function CellTypeName(t: CellType): (name: string)
    ensures name == "markdown" <==> t == Markdown
    ensures name == "code" <==> t == Code
    ensures name == "raw" <==> t == Raw
  {
    match t
    case Markdown => "markdown"
    case Code => "code"
    case Raw => "raw"
  }

  /** The outputs of a code cell; `data` is a mime bundle. */
  datatype Output =
    | Stream(name: string, text: string)
    | ExecuteResult(data: map<string, string>, metadata: Metadata, executionCount: Option<int>)
    | DisplayData(data: map<string, string>, metadata: Metadata)
    | Error(ename: string, evalue: string, traceback: seq<string>)

  /** `"execution_count" in output`: only an execute_result carries the key. */
  predicate HasExecutionCountKey(o: Output) {
    o.ExecuteResult?
  }

  /** The fields of a cell. Markdown and raw cells have no outputs and no
      execution count in the notebook format; here they hold `[]` and `None`. */
  datatype CellValue = CellValue(
    kind: CellType,
    source: string,
    metadata: Metadata,
    outputs: seq<Output>,
    executionCount: Option<int>)

  /** The value of `nbformat.v4.new_markdown_cell(source)`. */
  function NewMarkdownValue(source: string): CellValue {
    CellValue(Markdown, source, map[], [], None)
  }

  class Cell {
    var kind: CellType
    var source: string
    var metadata: Metadata
    var outputs: seq<Output>
    var executionCount: Option<int>

    constructor (v: CellValue)
      ensures Value() == v
    {
      kind := v.kind;
      source := v.source;
      metadata := v.metadata;
      outputs := v.outputs;
      executionCount := v.executionCount;
    }

    function Value(): CellValue
      reads this
    {
      CellValue(kind, source, metadata, outputs, executionCount)
    }
  }

  /** The values of a list of cells, in order. */
  function Values(cells: seq<Cell>): (r: seq<CellValue>)
    reads cells
    ensures |r| == |cells| && forall k | 0 <= k < |cells| :: r[k] == cells[k].Value()
  {
    seq(|cells|, k requires 0 <= k < |cells| reads cells => cells[k].Value())
  }

  /** No cell object occurs twice in a list. */
  predicate Distinct(cells: seq<Cell>) {
    forall i, j | 0 <= i < j < |cells| :: cells[i] != cells[j]
  }

  class Notebook {
    var nbformat: int
    var nbformatMinor: int
    var cells: seq<Cell>
    var metadata: Metadata

    constructor (cells: seq<Cell>, metadata: Metadata)
      ensures this.cells == cells && this.metadata == metadata
      ensures nbformat == 4 && nbformatMinor == 5
    {
      nbformat := 4;
      nbformatMinor := 5;
      this.cells := cells;
      this.metadata := metadata;
    }

    /** The notebook reader gives every cell its own object. */
    predicate Valid()
      reads this
    {
      Distinct(cells)
    }
  }
}
