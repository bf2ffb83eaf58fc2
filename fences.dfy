/** The fence patterns of src/nbdocs/re_tools.py: the code-cell marker that the
    export leaves after a fence opener (`^```(\w*\s*)\n###cell`, with `re.M`),
    the fence opener itself (```` ```\w*\s*\n ````), and the comment that marks
    a cell in the Markdown (`re_cell`). Each is a hand-written matcher that
    follows the regex engine's backtracking order. */
module Fences {
  import opened Text
  import opened Wrappers
  import opened FlagGrammar

  const Fence: string := "```"

  /** `\w*\s*`: word characters, then whitespace. */
  ghost predicate WordThenSpace(g: string) {
    exists w | 0 <= w <= |g| :: (forall k | 0 <= k < w :: IsWordChar(g[k])) && AllSpace(g[w..])
  }

  // ---------------------------------------------------------------------
  // re_code_cell_flag

  /** `q` is the newline in front of `###cell` of a match of
      `^```(\w*\s*)\n###cell` that starts at `i`; group 1 is `s[i + 3..q]`. */
  ghost predicate IsCodeCellFlag(s: string, i: nat, q: nat) {
    LineStart(s, i) && StartsAt(s, i, Fence) && i + 3 <= q < |s| &&
    WordThenSpace(s[i + 3..q]) && s[q] == '\n' && StartsAt(s, q + 1, CellFlag)
  }

  /** A fence at `i` and a marker line at `m`, with the info string between them. */
  predicate MarkerAt(s: string, i: nat, m: nat) {
    i + 4 <= m <= |s| - 7 && StartsAt(s, i, Fence) && s[m - 1] == '\n' && StartsAt(s, m, CellFlag)
  }

  /** The match of `re_code_cell_flag` at `i`: where its `###cell` starts. The
      greedy `\s*` must give back exactly the newline in front of `###cell`. */
  function CodeCellFlagAt(s: string, i: nat): (r: Option<nat>)
    requires i <= |s|
    ensures r.Some? ==> LineStart(s, i) && MarkerAt(s, i, r.value)
  {
    if LineStart(s, i) && StartsAt(s, i, Fence) then
      var w := SkipWord(s, i + 3);
      var m := SkipSpace(s, w);
      if w < m && s[m - 1] == '\n' && StartsAt(s, m, CellFlag) then Some(m) else None
    else None
  }

  /** Every match the matcher reports is a match of the pattern. */
  lemma CodeCellFlagAtSound(s: string, i: nat)
    requires i <= |s| && CodeCellFlagAt(s, i).Some?
    ensures IsCodeCellFlag(s, i, CodeCellFlagAt(s, i).value - 1)
  {
    var w := SkipWord(s, i + 3);
    var m := SkipSpace(s, w);
    var g := s[i + 3..m - 1];
    assert g[w - (i + 3)..] == s[w..m - 1];
    AllSpaceSlice(s, w, m, w, m - 1);
    assert forall k | 0 <= k < w - (i + 3) :: g[k] == s[i + 3 + k];
  }

  /** The matcher finds every match of the pattern, and the match is unique. */
  lemma CodeCellFlagAtComplete(s: string, i: nat, q: nat)
    requires IsCodeCellFlag(s, i, q)
    ensures CodeCellFlagAt(s, i) == Some(q + 1)
  {
    var w := CodeCellFlagRuns(s, i, q);
    CodeCellFlagAtIntro(s, i, w, q);
  }

  /** In a match, the greedy `\w*` stops where the group's word part ends and
      the greedy `\s*` after it stops at `###cell`. */
  lemma CodeCellFlagRuns(s: string, i: nat, q: nat) returns (w: nat)
    requires IsCodeCellFlag(s, i, q)
    ensures i + 3 <= w <= q && SkipWord(s, i + 3) == w && SkipSpace(s, w) == q + 1
  {
    w := GroupSplit(s, i + 3, q);
    assert !IsWordChar(s[w]) by {
      if w < q {
        assert s[w..q][0] == s[w];
      }
    }
    SkipWordExact(s, i + 3, w);
    assert s[q + 1] == '#' by {
      assert s[q + 1..q + 8][0] == CellFlag[0];
    }
    SpaceThroughNewline(s, w, q);
    SkipSpaceExact(s, w, q + 1);
  }

  /** The split point of a `\w*\s*` group, as indices into `s`. */
  lemma GroupSplit(s: string, a: nat, b: nat) returns (w: nat)
    requires a <= b <= |s| && WordThenSpace(s[a..b])
    ensures a <= w <= b && (forall k | a <= k < w :: IsWordChar(s[k])) && AllSpace(s[w..b])
  {
    var g := s[a..b];
    var w0 :| 0 <= w0 <= |g| && (forall k | 0 <= k < w0 :: IsWordChar(g[k])) && AllSpace(g[w0..]);
    w := a + w0;
    forall k | a <= k < w ensures IsWordChar(s[k]) {
      assert g[k - a] == s[k];
    }
    assert g[w0..] == s[w..b];
  }

  lemma SpaceThroughNewline(s: string, w: nat, q: nat)
    requires w <= q < |s| && AllSpace(s[w..q]) && s[q] == '\n'
    ensures AllSpace(s[w..q + 1])
  {
    assert s[w..q + 1] == s[w..q] + [s[q]];
  }

  lemma CodeCellFlagAtIntro(s: string, i: nat, w: nat, q: nat)
    requires i + 3 <= w <= q < |s| && LineStart(s, i) && StartsAt(s, i, Fence)
    requires SkipWord(s, i + 3) == w && SkipSpace(s, w) == q + 1
    requires s[q] == '\n' && StartsAt(s, q + 1, CellFlag)
    ensures CodeCellFlagAt(s, i) == Some(q + 1)
  {
  }

  lemma SkipWordExact(s: string, i: nat, j: nat)
    requires i <= j < |s| && (forall k | i <= k < j :: IsWordChar(s[k])) && !IsWordChar(s[j])
    ensures SkipWord(s, i) == j
    decreases j - i
  {
    if i < j {
      SkipWordExact(s, i + 1, j);
    }
  }

  /** The match the evidently intended pattern `^```(\w*[^\S\n]*)\n###cell`
      makes at `i`: as `re_code_cell_flag`, but the info string stays on the
      fence's line, so only a fence opener directly followed by the marker
      line matches. */
  function CodeCellOpenerAt(s: string, i: nat): (r: Option<nat>)
    requires i <= |s|
    ensures r.Some? ==> LineStart(s, i) && MarkerAt(s, i, r.value) && '\n' !in s[i + 3..r.value - 1]
  {
    match CodeCellFlagAt(s, i)
    case Some(m) => if '\n' in s[i + 3..m - 1] then None else Some(m)
    case None => None
  }

  /** `q` is the newline in front of `###cell` of a match of the intended pattern. */
  ghost predicate IsCodeCellOpener(s: string, i: nat, q: nat) {
    IsCodeCellFlag(s, i, q) && '\n' !in s[i + 3..q]
  }

  /** The opener matcher finds exactly the matches of the intended pattern. */
  lemma CodeCellOpenerAtIff(s: string, i: nat, q: nat)
    requires i <= |s|
    ensures CodeCellOpenerAt(s, i) == Some(q + 1) <==> IsCodeCellOpener(s, i, q)
  {
    if IsCodeCellOpener(s, i, q) {
      CodeCellFlagAtComplete(s, i, q);
    }
    if CodeCellOpenerAt(s, i) == Some(q + 1) {
      CodeCellFlagAtSound(s, i);
    }
  }

  /** A fence whose next line is blank, as the closing fence of a code cell
      without output is, is never a match of the intended pattern. */
  lemma BlankAfterFenceNoOpener(s: string, i: nat)
    requires i + 5 <= |s| && StartsAt(s, i, Fence) && s[i + 3] == '\n' && s[i + 4] == '\n'
    ensures CodeCellOpenerAt(s, i).None?
  {
    if CodeCellFlagAt(s, i).Some? {
      var m := CodeCellFlagAt(s, i).value;
      StartsAtChar(s, m, CellFlag, 0);
      assert s[i + 3..m - 1][0] == '\n';
    }
  }

  /** The match the scan uses: the pattern as written, or only fence openers. */
  function MarkerMatchAt(s: string, i: nat, openerOnly: bool): (r: Option<nat>)
    requires i <= |s|
    ensures r.Some? ==> LineStart(s, i) && MarkerAt(s, i, r.value)
  {
    if openerOnly then CodeCellOpenerAt(s, i) else CodeCellFlagAt(s, i)
  }

  /** `re_code_cell_flag.sub(r"###cell\n```\1", s[pos..])`, continuing a scan of
      `s`; with `openerOnly`, the same substitution with the intended pattern. */
  function CellFlagSubFrom(s: string, pos: nat, openerOnly: bool): (r: string)
    requires pos <= |s|
    ensures multiset(r) == multiset(s[pos..])
    decreases |s| - pos, 1
  {
    if pos == |s| then []
    else
      match MarkerMatchAt(s, pos, openerOnly)
      case Some(m) => MarkerMovedFrom(s, pos, m, openerOnly)
      case None =>
        var rest := CellFlagSubFrom(s, pos + 1, openerOnly);
        SuffixCons(s, pos);
        [s[pos]] + rest
  }

  /** The replacement of the match at `pos` whose marker starts at `m`, then the scan after it. */
  function MarkerMovedFrom(s: string, pos: nat, m: nat, openerOnly: bool): (r: string)
    requires MarkerAt(s, pos, m)
    ensures multiset(r) == multiset(s[pos..])
    decreases |s| - pos, 0
  {
    var rest := CellFlagSubFrom(s, m + 7, openerOnly);
    MatchPieces(s, pos, m);
    MovePermutes(CellFlag, "\n", Fence, s[pos + 3..m - 1], rest, s[m + 7..]);
    CellFlag + "\n" + Fence + s[pos + 3..m - 1] + rest
  }

  /** `md_process_cell_flag`: moves the `###cell` marker that follows a fence
      opener in front of the fence, keeping the info string. */
  function MdProcessCellFlag(md: string): (r: string)
    ensures multiset(r) == multiset(md) && |r| == |md|
  {
    assert md[0..] == md;
    var r := CellFlagSubFrom(md, 0, false);
    assert |multiset(r)| == |r|;
    r
  }

  /** `md_process_cell_flag` with the evidently intended pattern, which moves
      only markers on the line right after a fence opener. */
  function MdProcessCellOpeners(md: string): (r: string)
    ensures multiset(r) == multiset(md) && |r| == |md|
  {
    assert md[0..] == md;
    var r := CellFlagSubFrom(md, 0, true);
    assert |multiset(r)| == |r|;
    r
  }

  lemma SuffixCons(s: string, pos: nat)
    requires pos < |s|
    ensures s[pos..] == [s[pos]] + s[pos + 1..]
  {
  }

  /** Proof step: the scan's no-match branch, unfolded once. */
  lemma CellFlagSubSkip(s: string, pos: nat, openerOnly: bool)
    requires pos < |s| && MarkerMatchAt(s, pos, openerOnly).None?
    ensures CellFlagSubFrom(s, pos, openerOnly) == [s[pos]] + CellFlagSubFrom(s, pos + 1, openerOnly)
  {
  }

  lemma MatchPieces(s: string, pos: nat, m: nat)
    requires MarkerAt(s, pos, m)
    ensures s[pos..] == Fence + s[pos + 3..m - 1] + ("\n" + CellFlag) + s[m + 7..]
  {
    assert s[pos..pos + 3] == Fence;
    assert s[m..m + 7] == CellFlag;
    assert s[m - 1..m + 7] == "\n" + CellFlag;
    assert s[pos..] == s[pos..pos + 3] + s[pos + 3..m - 1] + s[m - 1..m + 7] + s[m + 7..];
  }

  /** Moving the marker `c` (with the newline `nl`) in front of the fence `f`
      and the info string `g` keeps the characters. */
  lemma MovePermutes(c: string, nl: string, f: string, g: string, t: string, rest: string)
    requires multiset(t) == multiset(rest)
    ensures multiset(c + nl + f + g + t) == multiset(f + g + (nl + c) + rest)
  {
    calc {
      multiset(c + nl + f + g + t);
      multiset(c) + multiset(nl) + multiset(f) + multiset(g) + multiset(t);
      multiset(f) + multiset(g) + (multiset(nl) + multiset(c)) + multiset(rest);
      multiset(f + g + (nl + c) + rest);
    }
  }

  /** Text without `#` has no marker to move and is returned unchanged. */
  lemma {:induction false} CellFlagSubNoMarker(s: string, pos: nat, openerOnly: bool)
    requires pos <= |s| && forall k | pos <= k < |s| :: s[k] != '#'
    ensures CellFlagSubFrom(s, pos, openerOnly) == s[pos..]
    decreases |s| - pos
  {
    if pos < |s| {
      NoMarkerNoMatch(s, pos);
      CellFlagSubNoMarker(s, pos + 1, openerOnly);
      CellFlagSubSkip(s, pos, openerOnly);
      SuffixCons(s, pos);
      ConsAppend(s[pos], CellFlagSubFrom(s, pos, openerOnly), CellFlagSubFrom(s, pos + 1, openerOnly), s[pos..], s[pos + 1..], []);
    }
  }

  lemma NoMarkerNoMatch(s: string, pos: nat)
    requires pos <= |s| && forall k | pos <= k < |s| :: s[k] != '#'
    ensures CodeCellFlagAt(s, pos).None?
  {
  }

  /** No fence at a line start in `s[pos..n]`: no match can start there. */
  predicate NoFenceLine(s: string, pos: nat, n: nat)
    requires pos <= n <= |s|
  {
    forall k | pos <= k < n :: !(LineStart(s, k) && StartsAt(s, k, Fence))
  }

  /** A stretch with no fence at a line start is copied by the scan. */
  lemma {:induction false} CellFlagSubNoFence(s: string, pos: nat, n: nat, openerOnly: bool)
    requires pos <= n <= |s| && NoFenceLine(s, pos, n)
    ensures CellFlagSubFrom(s, pos, openerOnly) == s[pos..n] + CellFlagSubFrom(s, n, openerOnly)
    decreases n - pos
  {
    if pos < n {
      NoFenceSkip(s, pos, openerOnly);
      CellFlagSubNoFence(s, pos + 1, n, openerOnly);
      SuffixSlice(s, pos, n);
      ConsAppend(s[pos], CellFlagSubFrom(s, pos, openerOnly), CellFlagSubFrom(s, pos + 1, openerOnly),
        s[pos..n], s[pos + 1..n], CellFlagSubFrom(s, n, openerOnly));
    }
  }

  lemma NoFenceSkip(s: string, pos: nat, openerOnly: bool)
    requires pos < |s| && !(LineStart(s, pos) && StartsAt(s, pos, Fence))
    ensures CellFlagSubFrom(s, pos, openerOnly) == [s[pos]] + CellFlagSubFrom(s, pos + 1, openerOnly)
  {
    CellFlagSubSkip(s, pos, openerOnly);
  }

  /** Text without a backtick holds no fence. */
  lemma NoTickNoFenceLine(s: string, pos: nat, n: nat)
    requires pos <= n <= |s| && forall k | pos <= k < n :: s[k] != '`'
    ensures NoFenceLine(s, pos, n)
  {
    forall k | pos <= k < n && StartsAt(s, k, Fence) ensures false {
      StartsAtChar(s, k, Fence, 0);
    }
  }

  /** The pieces of a fence opener `Fence + word + sp` followed by the marker. */
  predicate MarkerShape(s: string, i: nat, word: string, sp: string, rest: string) {
    i + 3 + |word| + |sp| + 8 + |rest| == |s| && StartsAt(s, i, Fence) &&
    s[i + 3..i + 3 + |word|] == word && s[i + 3 + |word|..i + 3 + |word| + |sp|] == sp &&
    s[i + 3 + |word| + |sp|] == '\n' && StartsAt(s, i + 4 + |word| + |sp|, CellFlag) &&
    s[i + 11 + |word| + |sp|..] == rest
  }

  lemma MarkerShapeOf(pre: string, word: string, sp: string, rest: string)
    ensures MarkerShape(pre + Fence + word + sp + "\n" + CellFlag + rest, |pre|, word, sp, rest)
  {
    var s := pre + Fence + word + sp + "\n" + CellFlag + rest;
    var i := |pre|;
    assert s[i..i + 3] == Fence;
    assert s[i + 4 + |word| + |sp|..i + 11 + |word| + |sp|] == CellFlag;
  }

  /** A fence opener with an info string of word characters and then
      whitespace, directly followed by the marker line, is a match. */
  lemma MarkerShapeMatch(s: string, i: nat, word: string, sp: string, rest: string)
    requires MarkerShape(s, i, word, sp, rest) && LineStart(s, i)
    requires (forall k | 0 <= k < |word| :: IsWordChar(word[k])) && AllSpace(sp)
    ensures CodeCellFlagAt(s, i) == Some(i + 4 + |word| + |sp|)
  {
    var w := i + 3 + |word|;
    var q := w + |sp|;
    MarkerWordRun(s, i, word, sp, rest);
    MarkerSpaceRun(s, i, word, sp, rest);
    CodeCellFlagAtIntro(s, i, w, q);
  }

  /** The greedy `\w*` of such a match stops after the word. */
  lemma MarkerWordRun(s: string, i: nat, word: string, sp: string, rest: string)
    requires MarkerShape(s, i, word, sp, rest)
    requires (forall k | 0 <= k < |word| :: IsWordChar(word[k])) && AllSpace(sp)
    ensures SkipWord(s, i + 3) == i + 3 + |word|
  {
    var w := i + 3 + |word|;
    forall k | i + 3 <= k < w ensures IsWordChar(s[k]) {
      assert s[k] == s[i + 3..w][k - (i + 3)];
    }
    if |sp| > 0 {
      assert s[w] == s[w..w + |sp|][0];
    }
    SkipWordExact(s, i + 3, w);
  }

  /** The greedy `\s*` of such a match stops at the marker. */
  lemma MarkerSpaceRun(s: string, i: nat, word: string, sp: string, rest: string)
    requires MarkerShape(s, i, word, sp, rest) && AllSpace(sp)
    ensures SkipSpace(s, i + 3 + |word|) == i + 4 + |word| + |sp|
  {
    var w := i + 3 + |word|;
    var q := w + |sp|;
    StartsAtChar(s, q + 1, CellFlag, 0);
    assert s[w..q + 1] == sp + "\n";
    SkipSpaceExact(s, w, q + 1);
  }

  /** The info string of such a match. */
  lemma MarkerShapeGroup(s: string, i: nat, m: nat, word: string, sp: string, rest: string)
    requires MarkerShape(s, i, word, sp, rest) && m == i + 4 + |word| + |sp|
    ensures s[i + 3..m - 1] == word + sp && m + 7 == |s| - |rest|
  {
    assert s[i + 3..m - 1] == s[i + 3..i + 3 + |word|] + s[i + 3 + |word|..m - 1];
  }

  /** An info string of word characters and line-internal whitespace has no line end. */
  lemma InfoOnOneLine(word: string, sp: string)
    requires (forall k | 0 <= k < |word| :: IsWordChar(word[k])) && '\n' !in sp
    ensures '\n' !in word + sp
  {
    forall k | 0 <= k < |word| ensures word[k] != '\n' {
      assert IsWordChar(word[k]);
    }
  }

  lemma ConsAppend(c: char, a: string, b: string, t: string, u: string, x: string)
    requires a == [c] + b && b == u + x && t == [c] + u
    ensures a == t + x
  {
  }

  lemma SuffixSlice(s: string, pos: nat, n: nat)
    requires pos < n <= |s|
    ensures s[pos..n] == [s[pos]] + s[pos + 1..n]
  {
  }

  /** At a fence opener at a line start, with an info string of word characters
      and whitespace, followed by the marker line, the scan writes the marker
      and the fence with its info string, then carries on after the marker,
      whatever follows. With `openerOnly` the info string must stay on the
      fence's line. */
  lemma MarkerScanAny(s: string, i: nat, word: string, sp: string, n: nat, rest: string, openerOnly: bool)
    requires MarkerShape(s, i, word, sp, rest) && LineStart(s, i) && n == |s| - |rest|
    requires (forall k | 0 <= k < |word| :: IsWordChar(word[k])) && AllSpace(sp)
    requires openerOnly ==> '\n' !in sp
    ensures CellFlagSubFrom(s, i, openerOnly) ==
      CellFlag + "\n" + Fence + (word + sp) + CellFlagSubFrom(s, n, openerOnly)
  {
    var m := i + 4 + |word| + |sp|;
    MarkerShapeMatchAt(s, i, word, sp, rest, openerOnly);
    ScanAtMatch(s, i, m, n, word + sp, openerOnly);
  }

  /** Such a fence opener is a match for either pattern; its info string is `word + sp`. */
  lemma MarkerShapeMatchAt(s: string, i: nat, word: string, sp: string, rest: string, openerOnly: bool)
    requires MarkerShape(s, i, word, sp, rest) && LineStart(s, i)
    requires (forall k | 0 <= k < |word| :: IsWordChar(word[k])) && AllSpace(sp)
    requires openerOnly ==> '\n' !in sp
    ensures MarkerMatchAt(s, i, openerOnly) == Some(i + 4 + |word| + |sp|)
    ensures s[i + 3..i + 3 + |word| + |sp|] == word + sp && i + 11 + |word| + |sp| == |s| - |rest|
  {
    var m := i + 4 + |word| + |sp|;
    MarkerShapeMatch(s, i, word, sp, rest);
    MarkerShapeGroup(s, i, m, word, sp, rest);
    if openerOnly {
      InfoOnOneLine(word, sp);
    }
  }

  /** Proof step: the scan's match branch, unfolded once. */
  lemma ScanAtMatch(s: string, pos: nat, m: nat, n: nat, g: string, openerOnly: bool)
    requires pos < |s| && MarkerMatchAt(s, pos, openerOnly) == Some(m) && n == m + 7 && s[pos + 3..m - 1] == g
    ensures CellFlagSubFrom(s, pos, openerOnly) == CellFlag + "\n" + Fence + g + CellFlagSubFrom(s, n, openerOnly)
  {
  }

  /** `md_process_cell_flag`'s substitution at a match of ```` ^```(\w*\s*)\n###cell ````
      whose newline is `q`, whatever follows it: the marker line, the fence and
      the group, then the substitution from `n`, just after the marker. */
  lemma ScanAtFlag(s: string, pos: nat, q: nat, n: nat)
    requires IsCodeCellFlag(s, pos, q) && n == q + 8
    ensures CellFlagSubFrom(s, pos, false) == CellFlag + "\n" + Fence + s[pos + 3..q] + CellFlagSubFrom(s, n, false)
  {
    FlagMatchFound(s, pos, q);
    ScanAtMatch(s, pos, q + 1, n, s[pos + 3..q], false);
  }

  /** The same with the intended pattern, at a fence opener followed by the marker line. */
  lemma ScanAtOpener(s: string, pos: nat, q: nat, n: nat)
    requires IsCodeCellOpener(s, pos, q) && n == q + 8
    ensures CellFlagSubFrom(s, pos, true) == CellFlag + "\n" + Fence + s[pos + 3..q] + CellFlagSubFrom(s, n, true)
  {
    OpenerMatchFound(s, pos, q);
    ScanAtMatch(s, pos, q + 1, n, s[pos + 3..q], true);
  }

  /** Proof step: the matcher reports a match of the pattern as written. */
  lemma FlagMatchFound(s: string, pos: nat, q: nat)
    requires IsCodeCellFlag(s, pos, q)
    ensures pos < |s| && MarkerMatchAt(s, pos, false) == Some(q + 1)
  {
    CodeCellFlagAtComplete(s, pos, q);
  }

  /** Proof step: the matcher reports a match of the intended pattern. */
  lemma OpenerMatchFound(s: string, pos: nat, q: nat)
    requires IsCodeCellOpener(s, pos, q)
    ensures pos < |s| && MarkerMatchAt(s, pos, true) == Some(q + 1)
  {
    CodeCellOpenerAtIff(s, pos, q);
  }

  /** A suffix without `#` is copied by the scan. */
  lemma RestCopied(s: string, n: nat, rest: string, openerOnly: bool)
    requires n <= |s| && s[n..] == rest && '#' !in rest
    ensures CellFlagSubFrom(s, n, openerOnly) == rest
  {
    forall k | n <= k < |s| ensures s[k] != '#' {
      assert s[k] == rest[k - n];
    }
    CellFlagSubNoMarker(s, n, openerOnly);
  }

  /** `md_process_cell_flag` on a text `pre + Fence + word + sp + "\n" +
      CellFlag + rest` (as `MarkerShape` cuts it) whose first fence at a line
      start is a fence opener with an info string of word characters and
      whitespace, followed by the marker line: the text before it is kept, the
      marker moves in front of the fence, the info string stays, and the
      substitution carries on after the marker, whatever follows. */
  lemma MarkerMovedThrough(md: string, pre: string, word: string, sp: string, n: nat, rest: string)
    requires MarkerShape(md, |pre|, word, sp, rest) && md[..|pre|] == pre && n == |md| - |rest|
    requires '`' !in pre && (pre == "" || pre[|pre| - 1] == '\n')
    requires (forall k | 0 <= k < |word| :: IsWordChar(word[k])) && AllSpace(sp)
    ensures MdProcessCellFlag(md) ==
      pre + (CellFlag + "\n" + Fence + (word + sp) + CellFlagSubFrom(md, n, false))
  {
    PrefixBeforeFence(md, pre);
    ScanThroughMarker(md, |pre|, word, sp, n, rest, false);
  }

  /** The corrected `md_process_cell_flag` on the same texts, when the info
      string stays on the fence's line: the same result, with the substitution
      after the marker also using the intended pattern. */
  lemma OpenerMovedThrough(md: string, pre: string, word: string, sp: string, n: nat, rest: string)
    requires MarkerShape(md, |pre|, word, sp, rest) && md[..|pre|] == pre && n == |md| - |rest|
    requires '`' !in pre && (pre == "" || pre[|pre| - 1] == '\n')
    requires (forall k | 0 <= k < |word| :: IsWordChar(word[k])) && AllSpace(sp) && '\n' !in sp
    ensures MdProcessCellOpeners(md) ==
      pre + (CellFlag + "\n" + Fence + (word + sp) + CellFlagSubFrom(md, n, true))
  {
    PrefixBeforeFence(md, pre);
    ScanThroughMarker(md, |pre|, word, sp, n, rest, true);
  }

  /** Proof step: a backtick-free prefix ending a line holds no fence, and the
      text after it starts a line. */
  lemma PrefixBeforeFence(md: string, pre: string)
    requires |pre| <= |md| && md[..|pre|] == pre
    requires '`' !in pre && (pre == "" || pre[|pre| - 1] == '\n')
    ensures md[0..|pre|] == pre && LineStart(md, |pre|) && NoFenceLine(md, 0, |pre|)
  {
    var i := |pre|;
    assert md[0..i] == pre;
    assert LineStart(md, i) by {
      if i > 0 {
        assert md[i - 1] == pre[i - 1];
      }
    }
    forall k | 0 <= k < i ensures md[k] != '`' {
      assert md[k] == pre[k];
    }
    NoTickNoFenceLine(md, 0, i);
  }


  /** The scan of a text whose first fence at a line start is followed by the marker. */
  lemma ScanThroughMarker(s: string, i: nat, word: string, sp: string, n: nat, rest: string, openerOnly: bool)
    requires MarkerShape(s, i, word, sp, rest) && LineStart(s, i) && NoFenceLine(s, 0, i) && n == |s| - |rest|
    requires (forall k | 0 <= k < |word| :: IsWordChar(word[k])) && AllSpace(sp)
    requires openerOnly ==> '\n' !in sp
    ensures CellFlagSubFrom(s, 0, openerOnly) ==
      s[0..i] + (CellFlag + "\n" + Fence + (word + sp) + CellFlagSubFrom(s, n, openerOnly))
  {
    MarkerScanAny(s, i, word, sp, n, rest, openerOnly);
    CellFlagSubNoFence(s, 0, i, openerOnly);
  }

  /** `md_process_cell_flag` on one fenced code cell whose opener is followed
      by the marker and whose remaining text holds no `#`: the marker moves in
      front of the fence, the info string (word characters and whitespace)
      stays, and the text before it, which holds no backtick, is kept. */
  lemma MarkerMoved(pre: string, word: string, sp: string, rest: string)
    requires '`' !in pre && (pre == "" || pre[|pre| - 1] == '\n')
    requires (forall k | 0 <= k < |word| :: IsWordChar(word[k])) && AllSpace(sp) && '#' !in rest
    ensures MdProcessCellFlag(pre + Fence + word + sp + "\n" + CellFlag + rest) ==
      pre + (CellFlag + "\n" + Fence + (word + sp) + rest)
  {
    var s := pre + Fence + word + sp + "\n" + CellFlag + rest;
    MarkerShapeOf(pre, word, sp, rest);
    assert s[..|pre|] == pre;
    MarkerMovedRest(s, pre, word, sp, rest);
  }

  /** `MarkerMoved` with the text cut as `MarkerShape` cuts it. */
  lemma MarkerMovedRest(s: string, pre: string, word: string, sp: string, rest: string)
    requires MarkerShape(s, |pre|, word, sp, rest) && s[..|pre|] == pre
    requires '`' !in pre && (pre == "" || pre[|pre| - 1] == '\n')
    requires (forall k | 0 <= k < |word| :: IsWordChar(word[k])) && AllSpace(sp) && '#' !in rest
    ensures MdProcessCellFlag(s) == pre + (CellFlag + "\n" + Fence + (word + sp) + rest)
  {
    var n := |s| - |rest|;
    MarkerMovedThrough(s, pre, word, sp, n, rest);
    ShapeSuffix(s, |pre|, word, sp, n, rest);
    RestCopied(s, n, rest, false);
  }

  lemma ShapeSuffix(s: string, i: nat, word: string, sp: string, n: nat, rest: string)
    requires MarkerShape(s, i, word, sp, rest) && n == |s| - |rest|
    ensures n <= |s| && s[n..] == rest
  {
  }

  /** A closing fence at a line start followed by a blank line and the next
      cell's marker also matches `re_code_cell_flag`, whose `\s*` runs over
      the line end: the scan moves that marker in front of the closing fence,
      so it ends up inside the code it should follow. */
  lemma ClosingFenceTaken(s: string, i: nat, n: nat, rest: string)
    requires MarkerShape(s, i, "", "\n", rest) && LineStart(s, i) && n == |s| - |rest|
    ensures CellFlagSubFrom(s, i, false) == CellFlag + "\n" + Fence + "\n" + CellFlagSubFrom(s, n, false)
  {
    MarkerScanAny(s, i, "", "\n", n, rest, false);
    assert "" + "\n" == "\n";
  }

  /** With the intended pattern the closing fence, the blank line and the
      marker are copied unchanged. */
  lemma ClosingFenceKept(s: string, i: nat, n: nat, rest: string)
    requires MarkerShape(s, i, "", "\n", rest) && LineStart(s, i) && n == |s| - |rest|
    ensures CellFlagSubFrom(s, i, true) == Fence + "\n\n" + CellFlag + CellFlagSubFrom(s, n, true)
  {
    ClosingFenceSkip(s, i, rest);
    ClosingFenceNoOther(s, i, rest);
    CellFlagSubNoFence(s, i + 1, n, true);
    SuffixSlice(s, i, n);
    ConsAppend(s[i], CellFlagSubFrom(s, i, true), CellFlagSubFrom(s, i + 1, true),
      s[i..n], s[i + 1..n], CellFlagSubFrom(s, n, true));
    ClosingFenceText(s, i, rest);
  }

  lemma ClosingFenceSkip(s: string, i: nat, rest: string)
    requires MarkerShape(s, i, "", "\n", rest)
    ensures CellFlagSubFrom(s, i, true) == [s[i]] + CellFlagSubFrom(s, i + 1, true)
  {
    assert s[i + 3..i + 4] == "\n";
    BlankAfterFenceNoOpener(s, i);
    CellFlagSubSkip(s, i, true);
  }

  lemma ClosingFenceText(s: string, i: nat, rest: string)
    requires MarkerShape(s, i, "", "\n", rest)
    ensures s[i..i + 12] == Fence + "\n\n" + CellFlag
  {
    assert s[i + 3..i + 4] == "\n";
    assert s[i + 3..i + 5] == "\n\n";
    assert s[i..i + 12] == s[i..i + 3] + s[i + 3..i + 5] + s[i + 5..i + 12];
  }

  /** After the closing fence's first backtick, up to the end of its marker,
      no fence starts at a line start. */
  lemma ClosingFenceNoOther(s: string, i: nat, rest: string)
    requires MarkerShape(s, i, "", "\n", rest)
    ensures NoFenceLine(s, i + 1, i + 12)
  {
    forall k | i + 1 <= k < i + 12 && LineStart(s, k) && StartsAt(s, k, Fence) ensures false {
      StartsAtChar(s, k, Fence, 0);
      if k < i + 4 {
        StartsAtChar(s, i, Fence, k - 1 - i);
      } else if k > i + 4 {
        StartsAtChar(s, i + 5, CellFlag, k - (i + 5));
      }
    }
  }

  /** The scan over a cell's code up to its closing fence and past the next marker. */
  lemma BodyThenClosing(s: string, a: nat, j: nat, rest: string, openerOnly: bool)
    requires a <= j <= |s| && NoFenceLine(s, a, j)
    requires MarkerShape(s, j, "", "\n", rest) && LineStart(s, j) && '#' !in rest
    ensures CellFlagSubFrom(s, a, openerOnly) == s[a..j] +
      if openerOnly then Fence + "\n\n" + CellFlag + rest else CellFlag + "\n" + Fence + "\n" + rest
  {
    CellFlagSubNoFence(s, a, j, openerOnly);
    ClosingTail(s, j, rest, openerOnly);
  }

  /** The scan from such a closing fence when no `#` follows its marker. */
  lemma ClosingTail(s: string, j: nat, rest: string, openerOnly: bool)
    requires MarkerShape(s, j, "", "\n", rest) && LineStart(s, j) && '#' !in rest
    ensures CellFlagSubFrom(s, j, openerOnly) ==
      if openerOnly then Fence + "\n\n" + CellFlag + rest else CellFlag + "\n" + Fence + "\n" + rest
  {
    var n := j + 12;
    RestCopied(s, n, rest, openerOnly);
    if openerOnly {
      ClosingFenceKept(s, j, n, rest);
    } else {
      ClosingFenceTaken(s, j, n, rest);
    }
  }

  /** The closing-fence case on a two-cell text, as written: the second cell's
      marker lands between the first cell's code and its closing fence. */
  lemma ClosingFenceMoved(md: string, expected: string)
    requires md == "```python\n###cell\nx\n```\n\n###cell\ny"
    requires expected == "###cell\n```python\nx\n###cell\n```\n\ny"
    ensures MdProcessCellFlag(md) == expected
  {
    TwoCellsHead(md, false);
    TwoCellsBody(md, false);
    assert MdProcessCellFlag(md) == CellFlagSubFrom(md, 0, false);
    TwoCellsMovedExpected(expected);
  }

  /** The same text with the intended pattern: only the opener's marker moves,
      and the closing fence stays after the code. */
  lemma ClosingFenceStays(md: string, expected: string)
    requires md == "```python\n###cell\nx\n```\n\n###cell\ny"
    requires expected == "###cell\n```python\nx\n```\n\n###cell\ny"
    ensures MdProcessCellOpeners(md) == expected
  {
    TwoCellsHead(md, true);
    TwoCellsBody(md, true);
    assert MdProcessCellOpeners(md) == CellFlagSubFrom(md, 0, true);
    TwoCellsStaysExpected(expected);
  }

  /** The scan of the two-cell text moves the opener's marker either way. */
  lemma TwoCellsHead(md: string, openerOnly: bool)
    requires md == "```python\n###cell\nx\n```\n\n###cell\ny"
    ensures CellFlagSubFrom(md, 0, openerOnly) == CellFlag + "\n" + Fence + "python" + CellFlagSubFrom(md, 17, openerOnly)
  {
    TwoCellsShape(md);
    ScanThroughMarker(md, 0, "python", "", 17, md[17..], openerOnly);
    assert md[0..0] == "";
    assert "python" + "" == "python";
  }

  /** The rest of the scan: the first cell's code, then its closing fence. */
  lemma TwoCellsBody(md: string, openerOnly: bool)
    requires md == "```python\n###cell\nx\n```\n\n###cell\ny"
    ensures CellFlagSubFrom(md, 17, openerOnly) == "\nx\n" +
      if openerOnly then Fence + "\n\n" + CellFlag + "\ny" else CellFlag + "\n" + Fence + "\n" + "\ny"
  {
    TwoCellsShape(md);
    BodyThenClosing(md, 17, 20, "\ny", openerOnly);
  }

  /** The two-cell text, cut at its fence opener and at its closing fence. */
  lemma TwoCellsShape(md: string)
    requires md == "```python\n###cell\nx\n```\n\n###cell\ny"
    ensures MarkerShape(md, 0, "python", "", md[17..]) && md[17..20] == "\nx\n"
    ensures MarkerShape(md, 20, "", "\n", "\ny") && LineStart(md, 20) && NoFenceLine(md, 17, 20)
  {
    TwoCellsCutOpener(md);
    MarkerShapeOf("", "python", "", "\nx\n" + Fence + "\n\n" + CellFlag + "\ny");
    TwoCellsCutClosing(md);
    MarkerShapeOf("```python\n###cell\nx\n", "", "\n", "\ny");
    NoTickNoFenceLine(md, 17, 20);
  }

  lemma TwoCellsCutOpener(md: string)
    requires md == "```python\n###cell\nx\n```\n\n###cell\ny"
    ensures md == "" + Fence + "python" + "" + "\n" + CellFlag + ("\nx\n" + Fence + "\n\n" + CellFlag + "\ny")
  {
  }

  lemma TwoCellsCutClosing(md: string)
    requires md == "```python\n###cell\nx\n```\n\n###cell\ny"
    ensures md == "```python\n###cell\nx\n" + Fence + "" + "\n" + "\n" + CellFlag + "\ny"
  {
  }

  lemma TwoCellsMovedExpected(expected: string)
    requires expected == "###cell\n```python\nx\n###cell\n```\n\ny"
    ensures expected == CellFlag + "\n" + Fence + "python" + ("\nx\n" + (CellFlag + "\n" + Fence + "\n" + "\ny"))
  {
  }

  lemma TwoCellsStaysExpected(expected: string)
    requires expected == "###cell\n```python\nx\n```\n\n###cell\ny"
    ensures expected == CellFlag + "\n" + Fence + "python" + ("\nx\n" + (Fence + "\n\n" + CellFlag + "\ny"))
  {
  }

  /** The first marker test: no info string. */
  lemma MarkerMovedPlain(md: string, expected: string)
    requires md == "```\n###cell\nSome code\n```" && expected == "###cell\n```\nSome code\n```"
    ensures MdProcessCellFlag(md) == expected
  {
    PlainMd(md);
    PlainExpected(expected);
    MarkerMoved("", "", "", "\nSome code\n```");
  }

  /** The language tag stays on the fence. */
  lemma MarkerMovedTag(md: string, expected: string)
    requires md == "```python\n###cell\nSome code\n```" && expected == "###cell\n```python\nSome code\n```"
    ensures MdProcessCellFlag(md) == expected
  {
    TagMd(md);
    TagExpected(expected);
    MarkerMoved("", "python", "", "\nSome code\n```");
  }

  /** A space after the tag stays on the fence. */
  lemma MarkerMovedTagSpace(md: string, expected: string)
    requires md == "```python \n###cell\nSome code\n```" && expected == "###cell\n```python \nSome code\n```"
    ensures MdProcessCellFlag(md) == expected
  {
    TagSpaceMd(md);
    TagSpaceExpected(expected);
    MarkerMoved("", "python", " ", "\nSome code\n```");
  }

  /** After a leading newline, with a space after the tag. */
  lemma MarkerMovedAfterNewline(md: string, expected: string)
    requires md == "\n```python \n###cell\nSome code\n```" && expected == "\n###cell\n```python \nSome code\n```"
    ensures MdProcessCellFlag(md) == expected
  {
    AfterNewlineMd(md);
    AfterNewlineExpected(expected);
    MarkerMoved("\n", "python", " ", "\nSome code\n```");
  }

  /** The marker tests' texts, cut into the pieces `MarkerMoved` names. */
  lemma PlainMd(md: string)
    requires md == "```\n###cell\nSome code\n```"
    ensures md == "" + Fence + "" + "" + "\n" + CellFlag + "\nSome code\n```"
  {
  }

  lemma PlainExpected(expected: string)
    requires expected == "###cell\n```\nSome code\n```"
    ensures expected == "" + (CellFlag + "\n" + Fence + ("" + "") + "\nSome code\n```")
  {
  }

  lemma TagMd(md: string)
    requires md == "```python\n###cell\nSome code\n```"
    ensures md == "" + Fence + "python" + "" + "\n" + CellFlag + "\nSome code\n```"
  {
  }

  lemma TagExpected(expected: string)
    requires expected == "###cell\n```python\nSome code\n```"
    ensures expected == "" + (CellFlag + "\n" + Fence + ("python" + "") + "\nSome code\n```")
  {
  }

  lemma TagSpaceMd(md: string)
    requires md == "```python \n###cell\nSome code\n```"
    ensures md == "" + Fence + "python" + " " + "\n" + CellFlag + "\nSome code\n```"
  {
  }

  lemma TagSpaceExpected(expected: string)
    requires expected == "###cell\n```python \nSome code\n```"
    ensures expected == "" + (CellFlag + "\n" + Fence + ("python" + " ") + "\nSome code\n```")
  {
  }

  lemma AfterNewlineMd(md: string)
    requires md == "\n```python \n###cell\nSome code\n```"
    ensures md == "\n" + Fence + "python" + " " + "\n" + CellFlag + "\nSome code\n```"
  {
  }

  lemma AfterNewlineExpected(expected: string)
    requires expected == "\n###cell\n```python \nSome code\n```"
    ensures expected == "\n" + (CellFlag + "\n" + Fence + ("python" + " ") + "\nSome code\n```")
  {
  }

  // ---------------------------------------------------------------------
  // re_code_cell_marker

  /** The match of ```` ```\w*\s*\n ```` at `i`: its end. The greedy `\s*` gives
      back to the last newline in the whitespace run. */
  function FenceOpenerAt(s: string, i: nat): (r: Option<nat>)
    requires i <= |s|
    ensures r.Some? ==> i + 4 <= r.value <= |s| && StartsAt(s, i, Fence) && s[r.value - 1] == '\n'
  {
    if StartsAt(s, i, Fence) then
      var w := SkipWord(s, i + 3);
      var m := SkipSpace(s, w);
      LastNewline(s, w, m)
    else None
  }

  /** One past the last newline in `s[lo..hi]`. */
  function LastNewline(s: string, lo: nat, hi: nat): (r: Option<nat>)
    requires lo <= hi <= |s|
    ensures r.Some? ==> lo < r.value <= hi && s[r.value - 1] == '\n'
    ensures r.Some? ==> forall k | r.value <= k < hi :: s[k] != '\n'
    ensures r.None? ==> forall k | lo <= k < hi :: s[k] != '\n'
    decreases hi - lo
  {
    if hi == lo then None
    else if s[hi - 1] == '\n' then Some(hi)
    else LastNewline(s, lo, hi - 1)
  }

  /** `re_code_cell_marker.sub("", s[pos..])`, continuing a scan of `s`. */
  function RemoveFenceOpenersFrom(s: string, pos: nat): (r: string)
    requires pos <= |s|
    ensures |r| <= |s| - pos
    decreases |s| - pos
  {
    if pos == |s| then []
    else
      match FenceOpenerAt(s, pos)
      case Some(e) => RemoveFenceOpenersFrom(s, e)
      case None => [s[pos]] + RemoveFenceOpenersFrom(s, pos + 1)
  }

  function RemoveFenceOpeners(s: string): string {
    RemoveFenceOpenersFrom(s, 0)
  }

  /** Text without a fence is left as it is. */
  lemma {:induction false} RemoveFenceOpenersNoFence(s: string, pos: nat)
    requires pos <= |s| && forall k | pos <= k < |s| :: !StartsAt(s, k, Fence)
    ensures RemoveFenceOpenersFrom(s, pos) == s[pos..]
    decreases |s| - pos
  {
    if pos < |s| {
      RemoveFenceOpenersNoFence(s, pos + 1);
      assert s[pos..] == [s[pos]] + s[pos + 1..];
    }
  }

  // ---------------------------------------------------------------------
  // re_cell

  /** `re_cell`: `^<!--\s###cell\s*#(?:\d+)\s*(?:markdown|code)\s*-->\n\n` at `i`;
      gives the end of the match. Every repetition is followed by a character it
      cannot take, so no backtracking happens. */
  function CellCommentAt(s: string, i: nat): (r: Option<nat>)
    requires i <= |s|
    ensures r.Some? ==> i < r.value <= |s| && LineStart(s, i) && StartsAt(s, i, "<!--")
    ensures r.Some? ==> i + 5 < r.value && ClosedAt(s, r.value)
  {
    if LineStart(s, i) && StartsAt(s, i, "<!--") && i + 4 < |s| && IsSpace(s[i + 4]) && StartsAt(s, i + 5, CellFlag) then
      var a := SkipSpace(s, i + 12);
      if a < |s| && s[a] == '#' then CellNumberFrom(s, a + 1) else None
    else None
  }

  /** The comment ends with two line ends just before `j`. */
  predicate ClosedAt(s: string, j: nat) {
    2 <= j <= |s| && s[j - 2] == '\n' && s[j - 1] == '\n'
  }

  /** The rest of `re_cell` after its `#`: the digits, the cell type and the
      closing `-->` with two line ends. */
  function CellNumberFrom(s: string, a: nat): (r: Option<nat>)
    requires a <= |s|
    ensures r.Some? ==> a + 5 < r.value <= |s| && ClosedAt(s, r.value)
  {
    var d := SkipDigits(s, a);
    if d > a then
      var b := SkipSpace(s, d);
      var c := if StartsAt(s, b, "markdown") then b + 8 else if StartsAt(s, b, "code") then b + 4 else b;
      if c > b then
        var e := SkipSpace(s, c);
        if StartsAt(s, e, "-->\n\n") then
          StartsAtChar(s, e, "-->\n\n", 3);
          StartsAtChar(s, e, "-->\n\n", 4);
          Some(e + 5)
        else None
      else None
    else None
  }

  function SkipDigits(s: string, i: nat): (j: nat)
    requires i <= |s|
    ensures i <= j <= |s| && forall k | i <= k < j :: '0' <= s[k] <= '9'
    ensures j < |s| ==> !('0' <= s[j] <= '9')
    decreases |s| - i
  {
    if i < |s| && '0' <= s[i] <= '9' then SkipDigits(s, i + 1) else i
  }
}
