/** The notebook-level driver of src/nbdocs/convert.py: `MdConverter.preprocess_nb`
    rebuilds the cell list with a comment cell in front of every kept cell,
    `nb2md` splits the export into cells, and `nb_newer` / `filter_changed`
    pick the notebooks whose Markdown is missing or older. */
module Convert {
  import opened Text
  import opened Wrappers
  import opened Seqs
  import opened FlagGrammar
  import opened Notebook
  import opened CellProcess
  import opened Splitting
  import opened Paths

  /** The error of the `cell_preprocessor` lookup. */
  datatype KeyError = KeyError(key: string)

  /** The source of the comment cell in front of the kept cell number `i`. */
  function CommentSource(i: nat, kind: CellType): string {
    CellFlag + "\n<!-- cell #" + NatToString(i) + " " + CellTypeName(kind) + " -->"
  }

  function CommentCell(i: nat, kind: CellType): CellValue {
    NewMarkdownValue(CommentSource(i, kind))
  }

  /** `cell_preprocessor[cell.cell_type](cell)`: only markdown and code have an entry. */
  function CellOutcome(v: CellValue): Result<Option<CellValue>, KeyError> {
    match v.kind
    case Markdown => Ok(Some(MarkedMarkdown(v)))
    case Code => Ok(ProcessedCode(v))
    case Raw => Err(KeyError(CellTypeName(Raw)))
  }

  /** The value a cell has after its processor ran: processors that keep the
      cell change it in place, a dropped or unprocessable cell is untouched. */
  function AfterCall(v: CellValue): CellValue {
    var o := CellOutcome(v);
    if o.Ok? && o.value.Some? then o.value.value else v
  }

  /** The processed value of a kept cell; None for a dropped or raw cell. */
  function Kept(v: CellValue): Option<CellValue> {
    var o := CellOutcome(v);
    if o.Ok? then o.value else None
  }

  /** The cell list `prev` built so far, with the cell `v` at index `i` handled. */
  function Extend(prev: seq<CellValue>, i: nat, v: CellValue): Result<seq<CellValue>, KeyError> {
    var o := CellOutcome(v);
    if o.Err? then Err(o.error)
    else if o.value.None? then Ok(prev)
    else Ok(prev + [CommentCell(i, v.kind), o.value.value])
  }

  /** The new cell list for the cells `vals`, which are the first cells of the
      notebook: the error of the first raw cell, or the interleaved list. */
  function Preprocessed(vals: seq<CellValue>): Result<seq<CellValue>, KeyError>
    decreases |vals|
  {
    if vals == [] then Ok([])
    else
      var prev := Preprocessed(vals[..|vals| - 1]);
      if prev.Err? then prev else Extend(prev.value, |vals| - 1, vals[|vals| - 1])
  }

  /** The index of the first raw cell, or the number of cells. */
  function FirstRaw(vals: seq<CellValue>): (n: nat)
    ensures n <= |vals| && forall k | 0 <= k < n :: vals[k].kind != Raw
    ensures n < |vals| ==> vals[n].kind == Raw
  {
    if vals == [] then 0
    else if vals[0].kind == Raw then 0
    else 1 + FirstRaw(vals[1..])
  }

  /** The values of the cells after the first `n` have been processed. */
  function Touched(vals: seq<CellValue>, n: nat): (r: seq<CellValue>)
    ensures |r| == |vals|
  {
    seq(|vals|, k requires 0 <= k < |vals| => if k < n then AfterCall(vals[k]) else vals[k])
  }

  /** One iteration of `MdConverter.preprocess_nb`: the lookup
      `self.cell_preprocessor[cell.cell_type]`, the call, and, for a kept
      cell, the comment cell and the cell appended to the new list. */
  method PreprocessAt(cells: seq<Cell>, i: nat, result: seq<Cell>) returns (r: Result<seq<Cell>, KeyError>)
    requires i < |cells| && Distinct(cells) && Distinct(result)
    requires forall j | 0 <= j < |result| :: result[j] != cells[i]
    modifies cells[i]
    ensures Values(cells) == old(Values(cells))[i := AfterCall(old(cells[i].Value()))]
    ensures r.Err? <==> Extend(old(Values(result)), i, old(cells[i].Value())).Err?
    ensures r.Err? ==> r.error == KeyError("raw")
    ensures r.Ok? ==> Values(r.value) == Extend(old(Values(result)), i, old(cells[i].Value())).value
    ensures r.Ok? ==> Distinct(r.value) && forall c | c in r.value :: c in result || c == cells[i] || c !in cells
  {
    var cell := cells[i];
    var outcome := PreprocessCell(cell);
    assert Values(result) == old(Values(result));
    assert Values(cells) == old(Values(cells))[i := cell.Value()];
    if outcome.Err? {
      return Err(outcome.error);
    }
    var processed := outcome.value;
    if processed.Some? {
      var comment := new Cell(CommentCell(i, cell.kind));
      ValuesAppend(result, comment, processed.value);
      DistinctAppend(result, comment, processed.value);
      r := Ok(result + [comment, processed.value]);
    } else {
      r := Ok(result);
    }
  }

  /** `self.cell_preprocessor[cell.cell_type](cell)`: the lookup, then the call. */
  method PreprocessCell(cell: Cell) returns (r: Result<Option<Cell>, KeyError>)
    modifies cell
    ensures r.Err? <==> CellOutcome(old(cell.Value())).Err?
    ensures r.Err? ==> r.error == KeyError("raw")
    ensures r.Ok? ==> (r.value.Some? <==> Kept(old(cell.Value())).Some?)
    ensures r.Ok? && r.value.Some? ==> r.value.value == cell && Kept(old(cell.Value())).value == cell.Value()
    ensures cell.Value() == AfterCall(old(cell.Value()))
  {
    match cell.kind {
      case Markdown =>
        var c := ProcessMarkdownCell(cell);
        r := Ok(Some(c));
      case Code =>
        var c := ProcessCodeCell(cell);
        r := Ok(c);
      case Raw =>
        r := Err(KeyError(CellTypeName(cell.kind)));
    }
  }

  /** The loop of `MdConverter.preprocess_nb` over the notebook's cells: every
      cell is processed in place, and the kept ones go into a new list behind
      their comment cells. On a raw cell the loop stops with the lookup error;
      the cells before it have been processed already. */
  method PreprocessCells(cells: seq<Cell>) returns (r: Result<seq<Cell>, KeyError>)
    requires Distinct(cells)
    modifies set c | c in cells
    ensures r.Ok? <==> Preprocessed(old(Values(cells))).Ok?
    ensures r.Ok? ==> Distinct(r.value) && Values(r.value) == Preprocessed(old(Values(cells))).value
    ensures r.Err? ==> r.error == KeyError("raw")
    ensures Values(cells) == Touched(old(Values(cells)), FirstRaw(old(Values(cells))))
  {
    ghost var vals := Values(cells);
    var result: seq<Cell> := [];
    var i := 0;
    while i < |cells|
      invariant 0 <= i <= |cells|
      invariant forall k | 0 <= k < i :: vals[k].kind != Raw
      invariant Preprocessed(vals[..i]) == Ok(Values(result))
      invariant Values(cells) == Touched(vals, i)
      invariant Distinct(result)
      invariant forall j, k | 0 <= j < |result| && i <= k < |cells| :: result[j] != cells[k]
    {
      PreprocessStep(vals, i);
      var next := PreprocessAt(cells, i, result);
      if next.Err? {
        FirstRawAt(vals, i);
        PreprocessedFails(vals);
        TouchedRaw(vals, i);
        return Err(next.error);
      }
      TouchedStep(vals, i);
      StillDisjoint(cells, i, result, next.value);
      result := next.value;
      i := i + 1;
    }
    assert vals[..i] == vals;
    r := Ok(result);
  }

  /** `MdConverter.preprocess_nb`. The notebook's cell list is replaced and the
      same notebook is returned; on a raw cell the list is kept. */
  method PreprocessNb(nb: Notebook) returns (r: Result<Notebook, KeyError>)
    requires nb.Valid()
    modifies nb, nb.cells
    ensures r.Ok? <==> Preprocessed(old(Values(nb.cells))).Ok?
    ensures r.Ok? ==> r.value == nb && nb.Valid() && Values(nb.cells) == Preprocessed(old(Values(nb.cells))).value
    ensures r.Err? ==> r.error == KeyError("raw") && nb.cells == old(nb.cells)
    ensures Values(old(nb.cells)) == Touched(old(Values(nb.cells)), FirstRaw(old(Values(nb.cells))))
    ensures nb.metadata == old(nb.metadata) && nb.nbformat == old(nb.nbformat) && nb.nbformatMinor == old(nb.nbformatMinor)
  {
    var cells := nb.cells;
    var result := PreprocessCells(cells);
    if result.Err? {
      return Err(result.error);
    }
    nb.cells := result.value;
    r := Ok(nb);
  }

  /** `nb2md` with the exporter as a parameter: preprocess, export, split on
      the marker lines. The export's resources are not modelled. */
  method Nb2Md(nb: Notebook, exporter: (Metadata, seq<CellValue>) -> string) returns (r: Result<seq<string>, KeyError>)
    requires nb.Valid()
    modifies nb, nb.cells
    ensures r.Ok? <==> Preprocessed(old(Values(nb.cells))).Ok?
    ensures r.Ok? ==> r.value == SplitCells(exporter(old(nb.metadata), Preprocessed(old(Values(nb.cells))).value))
    ensures nb.metadata == old(nb.metadata) && nb.nbformat == old(nb.nbformat) && nb.nbformatMinor == old(nb.nbformatMinor)
  {
    var processed := PreprocessNb(nb);
    if processed.Err? {
      return Err(processed.error);
    }
    var md := exporter(nb.metadata, Values(nb.cells));
    r := Ok(SplitCells(md));
  }

  // ---------------------------------------------------------------------
  // Properties of the preprocessing

  /** Proof step for the loop: `Preprocessed` on one more cell, unfolded once. */
  lemma PreprocessStep(vals: seq<CellValue>, i: nat)
    requires i < |vals|
    ensures Preprocessed(vals[..i]).Ok? ==> Preprocessed(vals[..i + 1]) == Extend(Preprocessed(vals[..i]).value, i, vals[i])
  {
    assert vals[..i + 1][..i] == vals[..i];
  }

  /** The list built after step `i` shares no cell with the cells still to come. */
  lemma StillDisjoint(cells: seq<Cell>, i: nat, result: seq<Cell>, next: seq<Cell>)
    requires Distinct(cells) && i < |cells|
    requires forall j, k | 0 <= j < |result| && i <= k < |cells| :: result[j] != cells[k]
    requires forall c | c in next :: c in result || c == cells[i] || c !in cells
    ensures forall j, k | 0 <= j < |next| && i < k < |cells| :: next[j] != cells[k]
  {
    forall j, k | 0 <= j < |next| && i < k < |cells|
      ensures next[j] != cells[k]
    {
      var c := next[j];
      assert c in next;
      if c in result {
        var j' :| 0 <= j' < |result| && result[j'] == c;
      }
    }
  }

  lemma DistinctAppend(cells: seq<Cell>, a: Cell, b: Cell)
    requires Distinct(cells) && a != b && a !in cells && b !in cells
    ensures Distinct(cells + [a, b])
  {
  }

  lemma ValuesAppend(cells: seq<Cell>, a: Cell, b: Cell)
    ensures Values(cells + [a, b]) == Values(cells) + [a.Value(), b.Value()]
  {
  }

  lemma TouchedStep(vals: seq<CellValue>, i: nat)
    requires i < |vals|
    ensures Touched(vals, i)[i := AfterCall(vals[i])] == Touched(vals, i + 1)
  {
  }

  /** A raw cell is left as it is. */
  lemma TouchedRaw(vals: seq<CellValue>, i: nat)
    requires i < |vals| && vals[i].kind == Raw
    ensures Touched(vals, i)[i := AfterCall(vals[i])] == Touched(vals, i)
  {
  }

  lemma FirstRawAt(vals: seq<CellValue>, i: nat)
    requires i < |vals| && vals[i].kind == Raw && forall k | 0 <= k < i :: vals[k].kind != Raw
    ensures FirstRaw(vals) == i
  {
    if i > 0 {
      FirstRawAt(vals[1..], i - 1);
    }
  }

  /** Preprocessing fails exactly when the notebook has a raw cell. */
  lemma {:induction false} PreprocessedFails(vals: seq<CellValue>)
    ensures Preprocessed(vals).Err? <==> exists k | 0 <= k < |vals| :: vals[k].kind == Raw
    decreases |vals|
  {
    if vals != [] {
      var n := |vals| - 1;
      var init := vals[..n];
      PreprocessedFails(init);
      assert forall k | 0 <= k < n :: init[k] == vals[k];
      if exists k | 0 <= k < |vals| :: vals[k].kind == Raw {
        var k :| 0 <= k < |vals| && vals[k].kind == Raw;
        if k < n {
          assert init[k].kind == Raw;
        }
      }
    }
  }

  /** The shape of the new cell list: `f` lists the kept cells' original
      indices in order; the list has two entries per kept cell, the comment
      naming the cell's index and type, then the processed cell. A cell is
      dropped exactly when its processor returned None. */
  lemma {:induction false} PreprocessedShape(vals: seq<CellValue>) returns (f: seq<nat>)
    requires Preprocessed(vals).Ok?
    ensures Increasing(f) && |Preprocessed(vals).value| == 2 * |f|
    ensures forall j | 0 <= j < |f| :: f[j] < |vals| && Kept(vals[f[j]]).Some?
    ensures forall j | 0 <= j < |f| ::
      Preprocessed(vals).value[2 * j] == CommentCell(f[j], vals[f[j]].kind) &&
      Preprocessed(vals).value[2 * j + 1] == Kept(vals[f[j]]).value
    ensures forall k | 0 <= k < |vals| :: k in f <==> Kept(vals[k]).Some?
    decreases |vals|
  {
    if vals == [] {
      f := [];
    } else {
      var init := vals[..|vals| - 1];
      var g := PreprocessedShape(init);
      assert ShapeOf(init, Preprocessed(init).value, g);
      f := ShapeStep(vals, g);
    }
  }

  /** `f` lists the kept cells of `vals`, and `out` holds a comment cell and
      the processed cell for each of them. */
  ghost predicate ShapeOf(vals: seq<CellValue>, out: seq<CellValue>, f: seq<nat>) {
    Increasing(f) && KeptIndices(vals, f) && Pairs(vals, out, f)
  }

  /** `f` holds exactly the indices of the cells that are kept. */
  ghost predicate KeptIndices(vals: seq<CellValue>, f: seq<nat>) {
    (forall j | 0 <= j < |f| :: f[j] < |vals| && Kept(vals[f[j]]).Some?) &&
    (forall k | 0 <= k < |vals| :: k in f <==> Kept(vals[k]).Some?)
  }

  /** `out` holds the comment cell and the processed cell of each index in `f`. */
  ghost predicate Pairs(vals: seq<CellValue>, out: seq<CellValue>, f: seq<nat>) {
    |out| == 2 * |f| &&
    forall j | 0 <= j < |f| :: f[j] < |vals| && Kept(vals[f[j]]).Some? &&
      out[2 * j] == CommentCell(f[j], vals[f[j]].kind) && out[2 * j + 1] == Kept(vals[f[j]]).value
  }

  /** The step of `PreprocessedShape` for the last cell. */
  lemma ShapeStep(vals: seq<CellValue>, g: seq<nat>) returns (f: seq<nat>)
    requires vals != [] && Preprocessed(vals).Ok?
    requires ShapeOf(vals[..|vals| - 1], Preprocessed(vals[..|vals| - 1]).value, g)
    ensures ShapeOf(vals, Preprocessed(vals).value, f)
  {
    var n := |vals| - 1;
    var init := vals[..n];
    if Kept(vals[n]).Some? {
      f := g + [n];
      PreprocessedLast(vals);
      ShapeExtend(vals, Preprocessed(init).value, g);
    } else {
      f := g;
      PreprocessedLast(vals);
      ShapeWiden(vals, Preprocessed(init).value, g);
    }
  }

  /** `Preprocessed` on a list ending in a cell that its processor handles. */
  lemma PreprocessedLast(vals: seq<CellValue>)
    requires vals != [] && Preprocessed(vals).Ok?
    ensures Preprocessed(vals[..|vals| - 1]).Ok?
    ensures Preprocessed(vals).value == Preprocessed(vals[..|vals| - 1]).value +
      (if Kept(vals[|vals| - 1]).Some?
       then [CommentCell(|vals| - 1, vals[|vals| - 1].kind), Kept(vals[|vals| - 1]).value]
       else [])
  {
  }

  /** A dropped last cell leaves the shape as it was. */
  lemma ShapeWiden(vals: seq<CellValue>, out: seq<CellValue>, g: seq<nat>)
    requires vals != [] && ShapeOf(vals[..|vals| - 1], out, g) && Kept(vals[|vals| - 1]).None?
    ensures ShapeOf(vals, out, g)
  {
    var n := |vals| - 1;
    var init := vals[..n];
    forall j | 0 <= j < |g| ensures init[g[j]] == vals[g[j]] {
    }
    var has := v => Kept(v).Some?;
    forall k | 0 <= k < n ensures k in g <==> has(vals[k]) {
      assert init[k] == vals[k];
    }
    IndicesSnoc(vals, has, g, g);
  }

  /** A kept last cell adds its index, its comment cell and the cell. */
  lemma ShapeExtend(vals: seq<CellValue>, out: seq<CellValue>, g: seq<nat>)
    requires vals != [] && ShapeOf(vals[..|vals| - 1], out, g) && Kept(vals[|vals| - 1]).Some?
    ensures ShapeOf(vals, out + [CommentCell(|vals| - 1, vals[|vals| - 1].kind), Kept(vals[|vals| - 1]).value], g + [|vals| - 1])
  {
    IncreasingSnoc(g, |vals| - 1);
    KeptIndicesExtend(vals, g);
    PairsExtend(vals, out, g);
  }

  lemma KeptIndicesExtend(vals: seq<CellValue>, g: seq<nat>)
    requires vals != [] && KeptIndices(vals[..|vals| - 1], g) && Kept(vals[|vals| - 1]).Some?
    ensures KeptIndices(vals, g + [|vals| - 1])
  {
    var n := |vals| - 1;
    var init := vals[..n];
    forall j | 0 <= j < |g| ensures init[g[j]] == vals[g[j]] {
    }
    var has := v => Kept(v).Some?;
    forall k | 0 <= k < n ensures k in g <==> has(vals[k]) {
      assert init[k] == vals[k];
    }
    IndicesSnoc(vals, has, g, g + [n]);
  }

  lemma PairsExtend(vals: seq<CellValue>, out: seq<CellValue>, g: seq<nat>)
    requires vals != [] && Pairs(vals[..|vals| - 1], out, g) && Kept(vals[|vals| - 1]).Some?
    ensures Pairs(vals, out + [CommentCell(|vals| - 1, vals[|vals| - 1].kind), Kept(vals[|vals| - 1]).value], g + [|vals| - 1])
  {
    var n := |vals| - 1;
    var init := vals[..n];
    var f := g + [n];
    var out' := out + [CommentCell(n, vals[n].kind), Kept(vals[n]).value];
    forall j | 0 <= j < |g| ensures init[g[j]] == vals[g[j]] && f[j] == g[j] {
    }
    forall j | 0 <= j < |g| ensures out'[2 * j] == out[2 * j] && out'[2 * j + 1] == out[2 * j + 1] {
    }
  }

  // ---------------------------------------------------------------------
  // nb_newer, filter_changed

  /** The Markdown file `nb_newer` compares with: the notebook's name in the
      docs folder, with the suffix `.md`. */
  function MdName(nb: Path, docsPath: Path): Result<Path, string> {
    WithSuffix(Child(docsPath, Name(nb)), ".md")
  }

  /** `nb_newer`. The filesystem is the map `mtime` from existing files to
      their modification times. A missing Markdown file makes the notebook
      newer; otherwise the notebook must exist and be strictly newer. */
  function NbNewer(nb: Path, docsPath: Path, mtime: map<Path, int>): Result<bool, string> {
    var md := MdName(nb, docsPath);
    if md.Err? then Err(md.error)
    else if md.value !in mtime then Ok(true)
    else if nb !in mtime then Err("FileNotFoundError")
    else Ok(mtime[nb] > mtime[md.value])
  }

  /** The condition of the `filter_changed` comprehension. */
  function Newer(docsPath: Path, mtime: map<Path, int>): Path -> bool {
    nb => NbNewer(nb, docsPath, mtime) == Ok(true)
  }

  /** `filter_changed`: the notebooks `nb_newer` accepts, in their order; the
      first error raised by `nb_newer` ends the comprehension. */
  function FilterChanged(nbNames: seq<Path>, docsPath: Path, mtime: map<Path, int>): (r: Result<seq<Path>, string>)
    ensures r.Ok? ==> r.value == Filter(nbNames, Newer(docsPath, mtime))
  {
    if nbNames == [] then Ok([])
    else
      var head := NbNewer(nbNames[0], docsPath, mtime);
      if head.Err? then Err(head.error)
      else
        var tail := FilterChanged(nbNames[1..], docsPath, mtime);
        if tail.Err? then tail
        else
          assert Newer(docsPath, mtime)(nbNames[0]) == head.value;
          Ok((if head.value then [nbNames[0]] else []) + tail.value)
  }

  /** `filter_changed` fails exactly when `nb_newer` fails on one of the notebooks. */
  lemma {:induction false} FilterChangedFails(nbNames: seq<Path>, docsPath: Path, mtime: map<Path, int>)
    ensures FilterChanged(nbNames, docsPath, mtime).Err? <==> exists k | 0 <= k < |nbNames| :: NbNewer(nbNames[k], docsPath, mtime).Err?
  {
    if nbNames != [] {
      FilterChangedFails(nbNames[1..], docsPath, mtime);
      FilterChangedCons(nbNames, docsPath, mtime);
      ExistsCons(nbNames, nb => NbNewer(nb, docsPath, mtime).Err?);
    }
  }

  /** One step of `filter_changed`: it fails on the first notebook or on the rest. */
  lemma FilterChangedCons(nbNames: seq<Path>, docsPath: Path, mtime: map<Path, int>)
    requires nbNames != []
    ensures FilterChanged(nbNames, docsPath, mtime).Err? <==>
      NbNewer(nbNames[0], docsPath, mtime).Err? || FilterChanged(nbNames[1..], docsPath, mtime).Err?
  {
  }

  /** `nb_newer` fails only when the Markdown name cannot be formed (neither
      the notebook nor the docs folder has a name) or when the Markdown file
      exists and the notebook does not; otherwise it is true exactly when the
      Markdown file is missing or strictly older. */
  lemma NbNewerSpec(nb: Path, docsPath: Path, mtime: map<Path, int>)
    ensures MdName(nb, docsPath).Err? <==> Name(nb) == "" && Name(docsPath) == ""
    ensures MdName(nb, docsPath).Ok? && Name(nb) != "" ==>
      Parent(MdName(nb, docsPath).value) == docsPath && Name(MdName(nb, docsPath).value) == Stem(Name(nb)) + ".md"
    ensures NbNewer(nb, docsPath, mtime).Err? <==>
      MdName(nb, docsPath).Err? || (MdName(nb, docsPath).value in mtime && nb !in mtime)
    ensures NbNewer(nb, docsPath, mtime).Ok? ==>
      (NbNewer(nb, docsPath, mtime).value <==>
        MdName(nb, docsPath).value !in mtime || mtime[nb] > mtime[MdName(nb, docsPath).value])
  {
    if Name(nb) != "" {
      ChildParent(docsPath, Name(nb));
    }
  }

  /** Equal modification times do not count as newer. */
  lemma NbNewerEqualTimes(nb: Path, docsPath: Path, mtime: map<Path, int>)
    requires MdName(nb, docsPath).Ok? && nb in mtime && MdName(nb, docsPath).value in mtime
    requires mtime[nb] == mtime[MdName(nb, docsPath).value]
    ensures NbNewer(nb, docsPath, mtime) == Ok(false)
  {
  }

  /** Touching the notebook (a later mtime) never makes it count as unchanged. */
  lemma NbNewerMonotone(nb: Path, docsPath: Path, mtime: map<Path, int>, later: int)
    requires nb in mtime && later >= mtime[nb]
    requires MdName(nb, docsPath).Ok? ==> MdName(nb, docsPath).value != nb
    requires NbNewer(nb, docsPath, mtime) == Ok(true)
    ensures NbNewer(nb, docsPath, mtime[nb := later]) == Ok(true)
  {
  }

  /** The result is an ordered sub-list of the input: `f` gives the position of
      each kept notebook, and a notebook is kept exactly when `nb_newer` is true. */
  lemma FilterChangedPieces(nbNames: seq<Path>, docsPath: Path, mtime: map<Path, int>) returns (f: seq<nat>)
    requires FilterChanged(nbNames, docsPath, mtime).Ok?
    ensures |f| == |FilterChanged(nbNames, docsPath, mtime).value| && Increasing(f)
    ensures forall k | 0 <= k < |f| :: f[k] < |nbNames| && FilterChanged(nbNames, docsPath, mtime).value[k] == nbNames[f[k]]
    ensures forall j | 0 <= j < |nbNames| :: j in f <==> NbNewer(nbNames[j], docsPath, mtime) == Ok(true)
  {
    f := FilterIndices(nbNames, Newer(docsPath, mtime));
  }
}
