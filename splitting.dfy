/** Splitting exported Markdown into cells: `split_md` (src/nbdocs/flags.py,
    src/nbdocs/process.py, src/nbdocs/process_md.py) and the split step of
    `MdConverter.nb2md` (src/nbdocs/convert.py). */
module Splitting {
  import opened Text
  import opened Seqs
  import opened FlagGrammar

  predicate NonEmpty(s: string) {
    s != ""
  }

  /** `item.strip()` for every item. */
  function Stripped(parts: seq<string>): (r: seq<string>)
    ensures |r| == |parts|
  {
    seq(|parts|, k requires 0 <= k < |parts| => Strip(parts[k]))
  }

  /** `split_md`: the stripped pieces between `###cell` markers, blank ones dropped. */
  function SplitMd(md: string): seq<string> {
    Filter(Stripped(Split(md, CellFlag)), NonEmpty)
  }

  /** The separator `nb2md` splits the export on. */
  const CellFlagLine: string := CellFlag + "\n"

  /** The split step of `nb2md`: only empty pieces are dropped. */
  function SplitCells(md: string): seq<string> {
    Filter(Split(md, CellFlagLine), NonEmpty)
  }

  // ---------------------------------------------------------------------
  // split_md

  /** Every cell is non-empty, starts and ends with a non-space character and
      holds no marker. */
  lemma SplitMdClean(md: string)
    ensures forall k | 0 <= k < |SplitMd(md)| ::
      SplitMd(md)[k] != "" && !IsSpace(SplitMd(md)[k][0]) && !IsSpace(SplitMd(md)[k][|SplitMd(md)[k]| - 1])
    ensures forall k | 0 <= k < |SplitMd(md)| :: !Contains(SplitMd(md)[k], CellFlag)
  {
    var parts := Split(md, CellFlag);
    var f := FilterIndices(Stripped(parts), NonEmpty);
    SplitPiecesFree(md, CellFlag);
    forall k | 0 <= k < |SplitMd(md)|
      ensures SplitMd(md)[k] != "" && !IsSpace(SplitMd(md)[k][0]) && !IsSpace(SplitMd(md)[k][|SplitMd(md)[k]| - 1])
      ensures !Contains(SplitMd(md)[k], CellFlag)
    {
      var piece := parts[f[k]];
      assert SplitMd(md)[k] == Strip(piece);
      if Contains(Strip(piece), CellFlag) {
        ContainsTrans(piece, Strip(piece), CellFlag);
      }
    }
  }

  /** The cells are the stripped non-blank pieces, in their order: `f` gives
      each cell's piece, and a piece is left out exactly when it is blank. */
  lemma SplitMdPieces(md: string) returns (f: seq<nat>)
    ensures |f| == |SplitMd(md)| && Increasing(f)
    ensures forall k | 0 <= k < |f| :: f[k] < |Split(md, CellFlag)| && SplitMd(md)[k] == Strip(Split(md, CellFlag)[f[k]])
    ensures forall j | 0 <= j < |Split(md, CellFlag)| :: j in f <==> !AllSpace(Split(md, CellFlag)[j])
  {
    f := FilterIndices(Stripped(Split(md, CellFlag)), NonEmpty);
  }

  /** Text without a marker is one cell, its stripped self, or none when blank. */
  lemma SplitMdWithoutMarker(md: string)
    requires !Contains(md, CellFlag)
    ensures !AllSpace(md) ==> SplitMd(md) == [Strip(md)]
    ensures AllSpace(md) ==> SplitMd(md) == []
  {
    SplitWithoutSep(md, CellFlag);
    assert Stripped([md]) == [Strip(md)];
    assert Filter([Strip(md)], NonEmpty) == (if NonEmpty(Strip(md)) then [Strip(md)] else []) + Filter([], NonEmpty);
  }

  // ---------------------------------------------------------------------
  // nb2md

  /** The pieces of the export are kept in order; exactly the empty ones are
      dropped, so whitespace-only pieces stay. */
  lemma SplitCellsPieces(md: string) returns (f: seq<nat>)
    ensures |f| == |SplitCells(md)| && Increasing(f)
    ensures forall k | 0 <= k < |f| :: f[k] < |Split(md, CellFlagLine)| && SplitCells(md)[k] == Split(md, CellFlagLine)[f[k]]
    ensures forall j | 0 <= j < |Split(md, CellFlagLine)| :: j in f <==> Split(md, CellFlagLine)[j] != ""
  {
    f := FilterIndices(Split(md, CellFlagLine), NonEmpty);
  }

  /** No piece is empty and none holds the separator. */
  lemma SplitCellsClean(md: string)
    ensures forall k | 0 <= k < |SplitCells(md)| :: SplitCells(md)[k] != "" && !Contains(SplitCells(md)[k], CellFlagLine)
  {
    var f := SplitCellsPieces(md);
    SplitPiecesFree(md, CellFlagLine);
  }

  /** Text without the separator is a single cell unless it is empty. */
  lemma SplitCellsWithoutMarker(md: string)
    requires !Contains(md, CellFlagLine)
    ensures SplitCells(md) == (if md == "" then [] else [md])
  {
    SplitWithoutSep(md, CellFlagLine);
    assert Filter([md], NonEmpty) == (if NonEmpty(md) then [md] else []) + Filter([], NonEmpty);
  }
}
