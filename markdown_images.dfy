/** `correct_markdown_image_link` of nbdocs/process.py: every local image a
    markdown cell links to is copied next to the exported Markdown and the
    links to it are rewritten. The file system is a value: the files and
    directories that exist and the log of copies made; `mkdir` and
    `shutil.copy` are transitions of it that may raise. */
module MarkdownImages {
  import opened Text
  import opened Wrappers
  import opened Notebook
  import opened Paths
  import opened ImageLinks

  // ---------------------------------------------------------------------
  // The file system

  datatype FsState = FsState(files: set<Path>, dirs: set<Path>, copies: seq<(Path, Path)>)

  /** The empty path and the root always exist, as directories. */
  predicate IsDir(fs: FsState, p: Path) {
    p.parts == [] || p in fs.dirs
  }

  /** `p.exists()` */
  predicate Exists(fs: FsState, p: Path) {
    IsDir(fs, p) || p in fs.files
  }

  /** A tree: nothing is both a file and a directory, and the parent of
      every entry is a directory. */
  predicate Valid(fs: FsState) {
    && (forall f | f in fs.files :: f.parts != [] && f !in fs.dirs && IsDir(fs, Parent(f)))
    && (forall d | d in fs.dirs :: d.parts != [] && IsDir(fs, Parent(d)))
  }

  /** The path made of the first `k` components of `p`. */
  function Prefix(p: Path, k: nat): (r: Path)
    requires k <= |p.parts|
    ensures |r.parts| == k
  {
    Path(p.absolute, p.parts[..k])
  }

  /** `p` and its ancestors below the root. */
  function Ancestry(p: Path): set<Path> {
    set k | 1 <= k <= |p.parts| :: Prefix(p, k)
  }

  /** `p.mkdir(exist_ok=True, parents=True)`: a file at `p` raises
      FileExistsError, a file above it NotADirectoryError; otherwise `p` and
      its missing ancestors are created. */
  function MakeDirs(fs: FsState, p: Path): (r: Result<FsState, string>)
    ensures r.Ok? ==> r.value.files == fs.files && r.value.copies == fs.copies && fs.dirs <= r.value.dirs
  {
    if p in fs.files then Err("FileExistsError")
    else if exists k | 1 <= k < |p.parts| :: Prefix(p, k) in fs.files then Err("NotADirectoryError")
    else Ok(fs.(dirs := fs.dirs + Ancestry(p)))
  }

  /** The target `shutil.copy(src, dst)` writes: into `dst` when it is a directory. */
  function CopyTarget(fs: FsState, src: Path, dst: Path): Path {
    if IsDir(fs, dst) then Child(dst, Name(src)) else dst
  }

  /** `shutil.copy(src, dst)`, with its checks in the order the library makes them. */
  function CopyFile(fs: FsState, src: Path, dst: Path): (r: Result<FsState, string>)
    ensures r.Ok? ==> r.value.dirs == fs.dirs && r.value.files == fs.files + {CopyTarget(fs, src, dst)}
    ensures r.Ok? ==> r.value.copies == fs.copies + [(src, CopyTarget(fs, src, dst))]
  {
    var target := CopyTarget(fs, src, dst);
    if target == src then Err("SameFileError")
    else if !Exists(fs, src) then Err("FileNotFoundError")
    else if IsDir(fs, src) then Err("IsADirectoryError")
    else if IsDir(fs, target) then Err("IsADirectoryError")
    else if !IsDir(fs, Parent(target)) then Err(if Exists(fs, Parent(target)) then "NotADirectoryError" else "FileNotFoundError")
    else Ok(fs.(files := fs.files + {target}, copies := fs.copies + [(src, target)]))
  }

  /** On a tree, `mkdir` fails exactly when a file is in the way. */
  lemma MakeDirsFails(fs: FsState, p: Path)
    requires Valid(fs)
    ensures MakeDirs(fs, p).Err? <==> exists k | 1 <= k <= |p.parts| :: Prefix(p, k) in fs.files
  {
    assert Prefix(p, |p.parts|) == p;
  }

  /** Otherwise it leaves a tree in which `p` is a directory. */
  lemma MakeDirsValid(fs: FsState, p: Path)
    requires Valid(fs) && MakeDirs(fs, p).Ok?
    ensures Valid(MakeDirs(fs, p).value) && IsDir(MakeDirs(fs, p).value, p)
  {
    var n := |p.parts|;
    assert Prefix(p, n) == p;
    var fs' := MakeDirs(fs, p).value;
    forall d | d in fs'.dirs ensures d.parts != [] && IsDir(fs', Parent(d)) {
      if d !in fs.dirs {
        var k :| 1 <= k <= n && d == Prefix(p, k);
        if k > 1 {
          assert Parent(d) == Prefix(p, k - 1);
        }
      }
    }
  }

  /** On a tree, a copy succeeds exactly when the source is a file and the
      target is a new or existing file in an existing directory, other than
      the source; it adds the target to the files and logs the copy. */
  lemma CopyFileSpec(fs: FsState, src: Path, dst: Path)
    requires Valid(fs)
    ensures var target := CopyTarget(fs, src, dst);
      CopyFile(fs, src, dst).Ok? <==>
        src in fs.files && target != src && !IsDir(fs, target) && IsDir(fs, Parent(target))
    ensures var target := CopyTarget(fs, src, dst);
      CopyFile(fs, src, dst).Ok? ==>
        && Valid(CopyFile(fs, src, dst).value)
        && CopyFile(fs, src, dst).value.files == fs.files + {target}
        && CopyFile(fs, src, dst).value.copies == fs.copies + [(src, target)]
  {
  }

  // ---------------------------------------------------------------------
  // One notebook

  /** Where the notebook is and where its Markdown goes. */
  datatype Target = Target(nbFn: Path, destPath: Path, imagePath: string)

  /** `f"{image_path}/{nb_fn.stem}_files"` */
  function DestImages(t: Target): string {
    t.imagePath + "/" + Stem(Name(t.nbFn)) + "_files"
  }

  /** `dest_path / dest_images` */
  function DestDir(t: Target): Path {
    JoinPath(t.destPath, Parse(DestImages(t)))
  }

  /** `Path(nb_fn).parent / path` */
  function ImageFile(t: Target, path: string): Path {
    JoinPath(Parent(t.nbFn), Parse(path))
  }

  /** The new link text, `f"{dest_images}/{image_fn.name}"`. */
  function NewLink(t: Target, path: string): string {
    DestImages(t) + "/" + Name(ImageFile(t, path))
  }

  /** `dest_path / dest_images / image_fn.name` */
  function CopyDest(t: Target, path: string): Path {
    Child(DestDir(t), Name(ImageFile(t, path)))
  }

  /** A link the function leaves alone: external, or to a file that is missing. */
  predicate Skipped(fs: FsState, t: Target, path: string) {
    Contains(path, "http") || !Exists(fs, ImageFile(t, path))
  }

  /** The state after some links: the cell's source, the file system and
      the exception raised, if any. */
  datatype Step = Step(source: string, fs: FsState, raised: Option<string>)

  /** The body of the inner loop for one link path: make the directory,
      rewrite the links to `path`, copy the image. */
  function FixLink(source: string, fs: FsState, path: string, t: Target): (r: Step)
    ensures r.raised.None? ==> fs.files <= r.fs.files && fs.dirs <= r.fs.dirs
  {
    if Skipped(fs, t, path) then Step(source, fs, None)
    else
      var imageFn := ImageFile(t, path);
      match MakeDirs(fs, DestDir(t))
      case Err(e) => Step(source, fs, Some(e))
      case Ok(fs1) =>
        var source1 := SubLinks(source, 0, GetImageLinkRe(path), NewLink(t, path));
        match CopyFile(fs1, imageFn, CopyDest(t, path))
        case Err(e) => Step(source1, fs1, Some(e))
        case Ok(fs2) => Step(source1, fs2, None)
  }

  /** The inner loop over the link paths, stopping at the first exception. */
  function FixLinks(source: string, fs: FsState, paths: seq<string>, t: Target): Step
    decreases |paths|
  {
    if paths == [] then Step(source, fs, None)
    else
      var st := FixLink(source, fs, paths[0], t);
      if st.raised.Some? then st else FixLinks(st.source, st.fs, paths[1..], t)
  }

  /** The path groups of `get_image_link_re().finditer(source)`. */
  function LinkPaths(source: string): (r: seq<string>)
    ensures |r| == |FindAll(source, 0, AnyPath)|
  {
    var ms := FindAll(source, 0, AnyPath);
    seq(|ms|, k requires 0 <= k < |ms| => source[ms[k].pathStart..ms[k].pathEnd])
  }

  /** One cell: markdown cells go through their links, found in the source
      as it was before any rewrite; other cells are not looked at. */
  function ImagesInCell(v: CellValue, fs: FsState, t: Target): Step {
    if v.kind == Markdown then FixLinks(v.source, fs, LinkPaths(v.source), t)
    else Step(v.source, fs, None)
  }

  /** The state after the cells: their values, the file system and the exception. */
  datatype Run = Run(vals: seq<CellValue>, fs: FsState, raised: Option<string>)

  /** The outer loop over the cells; after an exception the remaining cells
      are untouched. */
  function ImagesInCells(vals: seq<CellValue>, fs: FsState, t: Target): (r: Run)
    ensures |r.vals| == |vals|
  {
    if vals == [] then Run([], fs, None)
    else
      var st := ImagesInCell(vals[0], fs, t);
      var v := vals[0].(source := st.source);
      if st.raised.Some? then Run([v] + vals[1..], st.fs, st.raised)
      else
        var rest := ImagesInCells(vals[1..], st.fs, t);
        Run([v] + rest.vals, rest.fs, rest.raised)
  }

  // ---------------------------------------------------------------------
  // The method

  /** The inner loop on one cell object. */
  method FixCell(cell: Cell, t: Target, fs0: FsState) returns (raised: Option<string>, fs: FsState)
    modifies cell
    ensures cell.Value() == old(cell.Value()).(source := ImagesInCell(old(cell.Value()), fs0, t).source)
    ensures fs == ImagesInCell(old(cell.Value()), fs0, t).fs
    ensures raised == ImagesInCell(old(cell.Value()), fs0, t).raised
  {
    fs := fs0;
    if cell.kind != Markdown {
      return None, fs;
    }
    ghost var v0 := cell.Value();
    var text := cell.source;
    var matches := FindAll(text, 0, AnyPath);
    ghost var paths := LinkPaths(text);
    ghost var final := FixLinks(text, fs0, paths, t);
    assert paths[0..] == paths;
    var j := 0;
    while j < |matches|
      invariant 0 <= j <= |matches| == |paths|
      invariant FixLinks(cell.source, fs, paths[j..], t) == final
      invariant cell.Value() == v0.(source := cell.source)
    {
      var m := matches[j];
      var path := text[m.pathStart..m.pathEnd];
      FixLinksCons(cell.source, fs, paths[j..], t);
      assert paths[j..][0] == path && paths[j..][1..] == paths[j + 1..];
      var st;
      st, fs := FixOne(cell, path, t, fs);
      if st.Some? {
        return st, fs;
      }
      j := j + 1;
    }
    return None, fs;
  }

  /** The body of the inner loop for the link path `path`, on the cell object. */
  method FixOne(cell: Cell, path: string, t: Target, fs0: FsState) returns (raised: Option<string>, fs: FsState)
    modifies cell
    ensures cell.Value() == old(cell.Value()).(source := FixLink(old(cell.source), fs0, path, t).source)
    ensures fs == FixLink(old(cell.source), fs0, path, t).fs
    ensures raised == FixLink(old(cell.source), fs0, path, t).raised
  {
    fs := fs0;
    if Contains(path, "http") {
      return None, fs;
    }
    var imageFn := ImageFile(t, path);
    if !Exists(fs, imageFn) {
      return None, fs;
    }
    var made := MakeDirs(fs, DestDir(t));
    if made.Err? {
      return Some(made.error), fs;
    }
    fs := made.value;
    cell.source := SubLinks(cell.source, 0, GetImageLinkRe(path), NewLink(t, path));
    var copied := CopyFile(fs, imageFn, CopyDest(t, path));
    if copied.Err? {
      return Some(copied.error), fs;
    }
    fs := copied.value;
    raised := None;
  }

  /** One step of the inner loop, on values. */
  lemma FixLinksCons(source: string, fs: FsState, paths: seq<string>, t: Target)
    requires paths != []
    ensures FixLinks(source, fs, paths, t) ==
      var st := FixLink(source, fs, paths[0], t);
      if st.raised.Some? then st else FixLinks(st.source, st.fs, paths[1..], t)
  {
  }

  /** `FixCell` on the `i`th cell of a list of distinct cells. */
  method FixCellAt(cells: seq<Cell>, i: nat, t: Target, fs0: FsState) returns (raised: Option<string>, fs: FsState)
    requires i < |cells| && Distinct(cells)
    modifies cells[i]
    ensures Values(cells) == old(Values(cells))[i := old(cells[i].Value()).(source := ImagesInCell(old(cells[i].Value()), fs0, t).source)]
    ensures fs == ImagesInCell(old(cells[i].Value()), fs0, t).fs
    ensures raised == ImagesInCell(old(cells[i].Value()), fs0, t).raised
  {
    raised, fs := FixCell(cells[i], t, fs0);
  }

  /** `correct_markdown_image_link(nb, nb_fn, dest_path, image_path)`: the
      cells get their rewritten sources, the file system its new directories
      and copies, and an exception stops the loops where it is raised. */
  method CorrectMarkdownImageLink(nb: Notebook, nbFn: Path, destPath: Path, imagePath: string, fs0: FsState)
    returns (raised: Option<string>, fs: FsState)
    requires nb.Valid()
    modifies set c | c in nb.cells
    ensures Values(nb.cells) == ImagesInCells(old(Values(nb.cells)), fs0, Target(nbFn, destPath, imagePath)).vals
    ensures fs == ImagesInCells(old(Values(nb.cells)), fs0, Target(nbFn, destPath, imagePath)).fs
    ensures raised == ImagesInCells(old(Values(nb.cells)), fs0, Target(nbFn, destPath, imagePath)).raised
  {
    var t := Target(nbFn, destPath, imagePath);
    var cells := nb.cells;
    ghost var vals := Values(cells);
    ghost var run := ImagesInCells(vals, fs0, t);
    fs := fs0;
    var i := 0;
    assert vals[0..] == vals;
    while i < |cells|
      invariant 0 <= i <= |cells| == |vals| == |run.vals|
      invariant Values(cells) == run.vals[..i] + vals[i..]
      invariant ImagesInCells(vals[i..], fs, t) == Run(run.vals[i..], run.fs, run.raised)
    {
      CellsStep(vals, i, fs, t, run);
      var st;
      st, fs := FixCellAt(cells, i, t, fs);
      Splice(run.vals, vals, i);
      if st.Some? {
        return st, fs;
      }
      i := i + 1;
    }
    assert run.vals[..i] + vals[i..] == run.vals;
    raised := None;
  }

  /** One iteration of the outer loop, on values. */
  lemma CellsStep(vals: seq<CellValue>, i: nat, fs: FsState, t: Target, run: Run)
    requires i < |vals| == |run.vals|
    requires ImagesInCells(vals[i..], fs, t) == Run(run.vals[i..], run.fs, run.raised)
    ensures var st := ImagesInCell(vals[i], fs, t);
      && run.vals[i] == vals[i].(source := st.source)
      && (st.raised.Some? ==> run.vals[i + 1..] == vals[i + 1..] && run.fs == st.fs && run.raised == st.raised)
      && (st.raised.None? ==> ImagesInCells(vals[i + 1..], st.fs, t) == Run(run.vals[i + 1..], run.fs, run.raised))
  {
    assert vals[i..][0] == vals[i] && vals[i..][1..] == vals[i + 1..];
    assert run.vals[i..][0] == run.vals[i] && run.vals[i..][1..] == run.vals[i + 1..];
  }

  /** Replacing the `i`th element of a spliced list moves the splice point. */
  lemma Splice<T>(a: seq<T>, b: seq<T>, i: nat)
    requires i < |a| == |b|
    ensures (a[..i] + b[i..])[i := a[i]] == a[..i + 1] + b[i + 1..]
    ensures a[i + 1..] == b[i + 1..] ==> a[..i + 1] + b[i + 1..] == a
  {
    if a[i + 1..] == b[i + 1..] {
      assert a == a[..i + 1] + a[i + 1..];
    }
  }

  // ---------------------------------------------------------------------
  // Properties

  /** The log grows at its end only. */
  predicate Grows(fs: FsState, fs': FsState) {
    && fs.files <= fs'.files && fs.dirs <= fs'.dirs
    && |fs.copies| <= |fs'.copies| && fs'.copies[..|fs.copies|] == fs.copies
  }

  lemma GrowsTrans(a: FsState, b: FsState, c: FsState)
    requires Grows(a, b) && Grows(b, c)
    ensures Grows(a, c)
  {
    assert c.copies[..|a.copies|] == c.copies[..|b.copies|][..|a.copies|];
  }

  /** One link keeps the file system a tree, and nothing is removed from it. */
  lemma FixLinkPreserves(source: string, fs: FsState, path: string, t: Target)
    requires Valid(fs)
    ensures Valid(FixLink(source, fs, path, t).fs) && Grows(fs, FixLink(source, fs, path, t).fs)
  {
    if !Skipped(fs, t, path) {
      var made := MakeDirs(fs, DestDir(t));
      if made.Ok? {
        MakeDirsValid(fs, DestDir(t));
        var imageFn := ImageFile(t, path);
        CopyFileSpec(made.value, imageFn, CopyDest(t, path));
        assert Grows(fs, made.value);
      }
    }
  }

  /** The links of a cell keep the file system a tree and remove nothing. */
  lemma {:induction false} FixLinksPreserves(source: string, fs: FsState, paths: seq<string>, t: Target)
    requires Valid(fs)
    ensures Valid(FixLinks(source, fs, paths, t).fs) && Grows(fs, FixLinks(source, fs, paths, t).fs)
    decreases |paths|
  {
    if paths != [] {
      var st := FixLink(source, fs, paths[0], t);
      FixLinkPreserves(source, fs, paths[0], t);
      if st.raised.None? {
        FixLinksPreserves(st.source, st.fs, paths[1..], t);
        GrowsTrans(fs, st.fs, FixLinks(st.source, st.fs, paths[1..], t).fs);
      }
    }
  }

  /** The whole notebook keeps the file system a tree and removes nothing,
      whether or not an exception stops it. */
  lemma {:induction false} ImagesInCellsPreserves(vals: seq<CellValue>, fs: FsState, t: Target)
    requires Valid(fs)
    ensures Valid(ImagesInCells(vals, fs, t).fs) && Grows(fs, ImagesInCells(vals, fs, t).fs)
    decreases |vals|
  {
    if vals != [] {
      var st := ImagesInCell(vals[0], fs, t);
      if vals[0].kind == Markdown {
        FixLinksPreserves(vals[0].source, fs, LinkPaths(vals[0].source), t);
      }
      if st.raised.None? {
        ImagesInCellsPreserves(vals[1..], st.fs, t);
        GrowsTrans(fs, st.fs, ImagesInCells(vals[1..], st.fs, t).fs);
      }
    }
  }

  /** Links that are external or point at missing files change nothing:
      neither the text nor the file system. */
  lemma {:induction false} FixLinksSkipped(source: string, fs: FsState, paths: seq<string>, t: Target)
    requires forall k | 0 <= k < |paths| :: Skipped(fs, t, paths[k])
    ensures FixLinks(source, fs, paths, t) == Step(source, fs, None)
    decreases |paths|
  {
    if paths != [] {
      assert Skipped(fs, t, paths[0]);
      FixLinksSkipped(source, fs, paths[1..], t);
    }
  }

  /** `out` differs from `vals` in the sources of markdown cells at most:
      kinds, metadata, outputs and execution counts are the same, and other
      cells are equal. */
  predicate SourcesOnly(vals: seq<CellValue>, out: seq<CellValue>) {
    |out| == |vals| &&
    forall k | 0 <= k < |vals| ::
      && out[k] == vals[k].(source := out[k].source)
      && (vals[k].kind != Markdown ==> out[k] == vals[k])
  }

  lemma SourcesOnlyCons(v: CellValue, w: CellValue, vals: seq<CellValue>, out: seq<CellValue>)
    requires w == v.(source := w.source) && (v.kind != Markdown ==> w == v)
    requires SourcesOnly(vals, out)
    ensures SourcesOnly([v] + vals, [w] + out)
  {
    assert forall k | 1 <= k < |vals| + 1 :: ([v] + vals)[k] == vals[k - 1] && ([w] + out)[k] == out[k - 1];
  }

  lemma SourcesOnlySame(vals: seq<CellValue>)
    ensures SourcesOnly(vals, vals)
  {
  }

  /** Only the sources of markdown cells change; kinds, metadata, outputs and
      execution counts stay, and other cells are left as they are. */
  lemma {:induction false} ImagesInCellsShape(vals: seq<CellValue>, fs: FsState, t: Target)
    ensures SourcesOnly(vals, ImagesInCells(vals, fs, t).vals)
    decreases |vals|
  {
    if vals != [] {
      var st := ImagesInCell(vals[0], fs, t);
      var v := vals[0].(source := st.source);
      ImagesInCellsCons(vals, fs, t);
      if st.raised.None? {
        ImagesInCellsShape(vals[1..], st.fs, t);
        SourcesOnlyCons(vals[0], v, vals[1..], ImagesInCells(vals[1..], st.fs, t).vals);
      } else {
        SourcesOnlySame(vals[1..]);
        SourcesOnlyCons(vals[0], v, vals[1..], vals[1..]);
      }
      assert [vals[0]] + vals[1..] == vals;
    }
  }

  /** One step of the outer loop: the first cell gets its new source, and
      the rest is processed unless the first cell raised. */
  lemma ImagesInCellsCons(vals: seq<CellValue>, fs: FsState, t: Target)
    requires vals != []
    ensures var st := ImagesInCell(vals[0], fs, t);
      && (vals[0].kind != Markdown ==> st.source == vals[0].source)
      && ImagesInCells(vals, fs, t).vals == [vals[0].(source := st.source)] +
        if st.raised.Some? then vals[1..] else ImagesInCells(vals[1..], st.fs, t).vals
  {
  }

  /** A notebook without markdown cells is left as it is, and no file is touched. */
  lemma {:induction false} ImagesInCellsNoMarkdown(vals: seq<CellValue>, fs: FsState, t: Target)
    requires forall k | 0 <= k < |vals| :: vals[k].kind != Markdown
    ensures ImagesInCells(vals, fs, t) == Run(vals, fs, None)
    decreases |vals|
  {
    if vals != [] {
      assert vals[0].kind != Markdown;
      ImagesInCellsNoMarkdown(vals[1..], fs, t);
      assert [vals[0]] + vals[1..] == vals;
    }
  }

  /** A notebook whose markdown cells hold no image link (its images, if any,
      are code outputs) is left as it is, and no file is touched. */
  lemma {:induction false} ImagesInCellsNoImageLinks(vals: seq<CellValue>, fs: FsState, t: Target)
    requires forall k, i | 0 <= k < |vals| && 0 <= i < |vals[k].source| ::
      vals[k].kind == Markdown ==> !StartsAt(vals[k].source, i, "![")
    ensures ImagesInCells(vals, fs, t) == Run(vals, fs, None)
    decreases |vals|
  {
    if vals != [] {
      var v := vals[0];
      if v.kind == Markdown {
        forall i | 0 <= i < |v.source| ensures !StartsAt(v.source, i, "![") {
          assert !StartsAt(vals[0].source, i, "![");
        }
        NoBangNoLink(v.source, AnyPath);
        NoLinkUnchanged(v.source, 0, AnyPath, "");
        assert LinkPaths(v.source) == [];
      }
      ImagesInCellsNoImageLinks(vals[1..], fs, t);
      assert [vals[0]] + vals[1..] == vals;
    }
  }

  /** A markdown cell holding the single link `![alt](name)`: a skipped link
      changes nothing; otherwise, once the directory is made, the link points
      at `{image_path}/{stem}_files/{file name}`, and a run without exception
      ends with the copy. */
  lemma OneLinkCell(alt: string, name: string, v: CellValue, fs: FsState, t: Target)
    requires v.kind == Markdown && v.source == "![" + alt + "](" + name + ")"
    requires '\n' !in alt && ']' !in alt && '\n' !in name && ']' !in name
    requires name != "" && !IsSpace(name[0])
    ensures Skipped(fs, t, name) ==> ImagesInCell(v, fs, t) == Step(v.source, fs, None)
    ensures !Skipped(fs, t, name) && MakeDirs(fs, DestDir(t)).Ok? ==>
      ImagesInCell(v, fs, t).source == "![" + alt + "](" + NewLink(t, name) + ")"
    ensures !Skipped(fs, t, name) && MakeDirs(fs, DestDir(t)).Ok? && ImagesInCell(v, fs, t).raised.None? ==>
      var fs1 := MakeDirs(fs, DestDir(t)).value;
      ImagesInCell(v, fs, t).fs.copies ==
        fs1.copies + [(ImageFile(t, name), CopyTarget(fs1, ImageFile(t, name), CopyDest(t, name)))]
  {
    var s := v.source;
    OneLinkPaths(s, alt, name);
    OneFixLinks(s, fs, name, t);
    var target := NewLink(t, name);
    if !Skipped(fs, t, name) && MakeDirs(fs, DestDir(t)).Ok? {
      assert GetImageLinkRe(name) == Literal(name);
      assert FixLink(s, fs, name, t).source == SubLinks(s, 0, Literal(name), target);
      OneLinkSub(alt, name, target);
      var fs1 := MakeDirs(fs, DestDir(t)).value;
      var copied := CopyFile(fs1, ImageFile(t, name), CopyDest(t, name));
      if copied.Ok? {
        assert FixLink(s, fs, name, t).fs == copied.value;
      }
    }
  }

  lemma OneLinkPaths(s: string, alt: string, name: string)
    requires s == "![" + alt + "](" + name + ")"
    requires '\n' !in alt && ']' !in alt && '\n' !in name && ']' !in name
    requires name == "" || !IsSpace(name[0])
    ensures LinkPaths(s) == [name]
  {
    OneLinkAny(s, alt, name);
    var b := |alt| + 2;
    assert s[b + 2..b + 2 + |name|] == name;
  }

  /** The inner loop over a single path is the step for that path. */
  lemma OneFixLinks(s: string, fs: FsState, path: string, t: Target)
    ensures FixLinks(s, fs, [path], t) == FixLink(s, fs, path, t)
  {
    var st := FixLink(s, fs, path, t);
    if st.raised.None? {
      assert FixLinks(st.source, st.fs, [path][1..], t) == Step(st.source, st.fs, None);
    }
  }

  // ---------------------------------------------------------------------
  // The documented cases

  /** An external link is left as it is. */
  lemma ExternalLinkKept(v: CellValue, fs: FsState, t: Target, alt: string, name: string)
    requires alt == "dog" && name == "https://localhost/dog.jpg"
    requires v.kind == Markdown && v.source == "![" + alt + "](" + name + ")"
    ensures ImagesInCell(v, fs, t) == Step(v.source, fs, None)
  {
    assert StartsAt(name, 0, "http");
    OneLinkCell(alt, name, v, fs, t);
  }

  /** A link to a file that does not exist is left as it is. */
  lemma MissingImageKept(v: CellValue, fs: FsState, t: Target, alt: string, name: string)
    requires alt == "dog" && name == "images/dogs.jpg"
    requires v.kind == Markdown && v.source == "![" + alt + "](" + name + ")"
    requires !Exists(fs, ImageFile(t, name))
    ensures ImagesInCell(v, fs, t) == Step(v.source, fs, None)
  {
    OneLinkCell(alt, name, v, fs, t);
  }

  /** The link line of `tests/test_nbs/markdown_image.ipynb`: with the image
      next to the notebook and the destination directory free to make, the
      link points into `images/markdown_image_files`, and a run without
      exception ends by copying the image there. */
  lemma DogImageMoved(v: CellValue, fs: FsState, t: Target, alt: string, name: string, stem: string)
    requires alt == "dog" && name == "dog.jpg" && stem == "markdown_image"
    requires v.kind == Markdown && v.source == "![" + alt + "](" + name + ")"
    requires t.nbFn == Path(false, ["tests", "test_nbs", stem + ".ipynb"]) && t.imagePath == "images"
    requires Path(false, ["tests", "test_nbs", name]) in fs.files
    requires MakeDirs(fs, DestDir(t)).Ok?
    ensures ImagesInCell(v, fs, t).source == "![" + alt + "](" + NewLink(t, name) + ")"
    ensures NewLink(t, name) == DestImages(t) + "/" + name && DestImages(t) == t.imagePath + "/" + stem + "_files"
    ensures CopyDest(t, name) == Child(DestDir(t), name)
    ensures ImagesInCell(v, fs, t).raised.None? ==>
      var fs1 := MakeDirs(fs, DestDir(t)).value;
      ImagesInCell(v, fs, t).fs.copies ==
        fs1.copies + [(Path(false, ["tests", "test_nbs", name]), CopyTarget(fs1, Path(false, ["tests", "test_nbs", name]), CopyDest(t, name)))]
  {
    DogImageFile(t, name, stem);
    NoFirstCharNoContains(name, "http");
    assert !Skipped(fs, t, name);
    OneLinkCell(alt, name, v, fs, t);
    DogDestImages(t, stem);
  }

  lemma DogImageFile(t: Target, name: string, stem: string)
    requires name == "dog.jpg" && t.nbFn == Path(false, ["tests", "test_nbs", stem + ".ipynb"])
    ensures ImageFile(t, name) == Path(false, ["tests", "test_nbs", name])
    ensures Name(ImageFile(t, name)) == name
  {
    ParseName(name);
  }

  lemma DogDestImages(t: Target, stem: string)
    requires stem == "markdown_image" && t.imagePath == "images"
    requires t.nbFn == Path(false, ["tests", "test_nbs", stem + ".ipynb"])
    ensures DestImages(t) == t.imagePath + "/" + stem + "_files"
  {
    StemExample(stem);
  }

  lemma NoFirstCharNoContains(s: string, t: string)
    requires t != [] && t[0] !in s
    ensures !Contains(s, t)
  {
    forall i | 0 <= i <= |s| ensures !StartsAt(s, i, t) {
      if i + |t| <= |s| {
        assert s[i..i + |t|][0] == s[i];
      }
    }
  }

  lemma StemExample(stem: string)
    requires stem == "markdown_image"
    ensures Stem(stem + ".ipynb") == stem
  {
    var n := stem + ".ipynb";
    assert LastDot(n) == 14 by {
      assert n[14] == '.';
    }
  }
}
