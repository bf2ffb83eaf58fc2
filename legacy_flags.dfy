/** The flag check of the first package version, nbdocs/process.py:
    `generate_flags_pattern` grows the list it is given, and `re_flags`
    splices the resulting alternation into `^\s*\#\s*` without a group, so
    only its first branch is anchored at the line start. */
module LegacyFlags {
  import opened Text
  import opened FlagGrammar
  import opened Wrappers
  import opened Notebook

  /** A Python list of flag names, appended to in place. */
  class FlagList {
    var items: seq<string>

    constructor (items: seq<string>)
      ensures this.items == items
    {
      this.items := items;
    }
  }

  /** `generate_flags_pattern`: appends the hyphen alias of every flag with
      `_` (iterating over a copy), then joins the grown list with `|`. */
  method GenerateFlagsPattern(flags: FlagList) returns (pattern: string)
    modifies flags
    ensures flags.items == Alternatives(old(flags.items))
    ensures pattern == Join(flags.items, "|")
  {
    var copy := flags.items;
    for i := 0 to |copy|
      invariant flags.items == copy + HyphenAliases(copy[..i])
    {
      assert copy[..i + 1] == copy[..i] + [copy[i]];
      HyphenAliasesSnoc(copy[..i], copy[i]);
      if '_' in copy[i] {
        flags.items := flags.items + [HyphenAlias(copy[i])];
      }
    }
    assert copy[..|copy|] == copy;
    pattern := Join(flags.items, "|");
  }

  /** The aliases of a concatenation are the aliases of the parts. */
  lemma {:induction false} HyphenAliasesAppend(a: seq<string>, b: seq<string>)
    ensures HyphenAliases(a + b) == HyphenAliases(a) + HyphenAliases(b)
  {
    if a == [] {
      assert a + b == b;
    } else {
      var head := if '_' in a[0] then [HyphenAlias(a[0])] else [];
      assert (a + b)[0] == a[0];
      assert (a + b)[1..] == a[1..] + b;
      HyphenAliasesAppend(a[1..], b);
      assert HyphenAliases(a + b) == head + (HyphenAliases(a[1..]) + HyphenAliases(b));
    }
  }

  /** Running `generate_flags_pattern` twice on the same list appends the
      aliases a second time: the aliases themselves have no `_`, but the
      original flags still do. */
  lemma AlternativesTwice(flags: seq<string>)
    ensures Alternatives(Alternatives(flags)) == Alternatives(flags) + HyphenAliases(flags)
  {
    var aliases := HyphenAliases(flags);
    HyphenAliasesSpec(flags);
    NoUnderscoreNoAliases(aliases);
    HyphenAliasesAppend(flags, aliases);
  }

  /** The branches of `re_flags`: the alternation `generate_flags_pattern(FLAGS)` returns. */
  const Branches: seq<string> := Alternatives(Flags)

  /** The alternation string spliced into `re_flags`. */
  const FlagsPattern: string := Join(Branches, "|")

  lemma BranchesValue()
    ensures Branches == ["hide", "hide_input", "hide_output", "hide-input", "hide-output"]
    ensures Split(FlagsPattern, "|") == Branches
  {
    FlagsAlternatives();
    AlternationRoundTrip(Flags);
  }

  // ---------------------------------------------------------------------
  // `^\s*\#\s*` followed by a name

  /** The regex `^\s*\#\s*name` matches at line start `p`, as the engine
      would try it: any split of the two whitespace runs. */
  ghost predicate RegexHeadAt(s: string, p: nat, name: string) {
    exists h, n | p <= h < n <= |s| ::
      LineStart(s, p) && AllSpace(s[p..h]) && s[h] == '#' && AllSpace(s[h + 1..n]) && StartsAt(s, n, name)
  }

  /** The same match, decided with the greedy whitespace runs. */
  predicate HeadAt(s: string, p: nat, name: string)
    requires p <= |s|
  {
    var h := SkipSpace(s, p);
    LineStart(s, p) && h < |s| && s[h] == '#' && StartsAt(s, SkipSpace(s, h + 1), name)
  }

  /** Greedy runs lose no match when the name starts with a non-space. */
  lemma HeadAtIff(s: string, p: nat, name: string)
    requires p <= |s| && name != "" && !IsSpace(name[0])
    ensures HeadAt(s, p, name) <==> RegexHeadAt(s, p, name)
  {
    if RegexHeadAt(s, p, name) {
      var h, n :| p <= h < n <= |s| &&
        LineStart(s, p) && AllSpace(s[p..h]) && s[h] == '#' && AllSpace(s[h + 1..n]) && StartsAt(s, n, name);
      SkipSpaceExact(s, p, h);
      assert s[n] == name[0];
      SkipSpaceExact(s, h + 1, n);
    }
    if HeadAt(s, p, name) {
      var h := SkipSpace(s, p);
      var n := SkipSpace(s, h + 1);
      assert p <= h < n <= |s|;
    }
  }

  /** `search` for `^\s*\#\s*name` anywhere in the text. */
  predicate HasHead(s: string, name: string) {
    exists p | 0 <= p <= |s| :: HeadAt(s, p, name)
  }

  // ---------------------------------------------------------------------
  // re_flags, as written and as intended

  /** `re_flags.search(s) is not None` as written: the first branch carries
      the anchor and the `#`, the others match anywhere. */
  predicate ReFlagsSearch(s: string) {
    HasHead(s, Branches[0]) || exists k | 1 <= k < |Branches| :: Contains(s, Branches[k])
  }

  /** The intended pattern `^\s*\#\s*(alternation)`: every branch after the `#`. */
  predicate GroupedSearch(s: string) {
    exists k | 0 <= k < |Branches| :: HasHead(s, Branches[k])
  }

  /** `cell_check_flags` as written. */
  function CellCheckFlagsAsWritten(v: CellValue): bool {
    v.kind == Code && ReFlagsSearch(v.source)
  }

  /** `cell_check_flags` with the grouped pattern: a code cell is flagged
      exactly when some line holds `#` and a flag name after optional
      whitespace; other cells never are. */
  function CellCheckFlags(v: CellValue): (r: bool)
    ensures r <==> v.kind == Code && exists k, p | 0 <= k < |Branches| && 0 <= p <= |v.source| ::
      RegexHeadAt(v.source, p, Branches[k])
  {
    BranchesValue();
    forall k, p | 0 <= k < |Branches| && 0 <= p <= |v.source| {
      HeadAtIff(v.source, p, Branches[k]);
    }
    v.kind == Code && GroupedSearch(v.source)
  }

  /** The written pattern accepts everything the intended one accepts. */
  lemma GroupedImpliesAsWritten(s: string)
    ensures GroupedSearch(s) ==> ReFlagsSearch(s)
  {
    if GroupedSearch(s) {
      var k :| 0 <= k < |Branches| && HasHead(s, Branches[k]);
      if k > 0 {
        var p :| 0 <= p <= |s| && HeadAt(s, p, Branches[k]);
        assert StartsAt(s, SkipSpace(s, SkipSpace(s, p) + 1), Branches[k]);
      }
    }
  }

  /** Without a `#` no line can hold a flag comment. */
  lemma NoHashNoHead(s: string, name: string)
    requires '#' !in s
    ensures !HasHead(s, name)
  {
    forall p | 0 <= p <= |s| ensures !HeadAt(s, p, name) {
      var h := SkipSpace(s, p);
      if h < |s| {
        assert s[h] in s;
      }
    }
  }

  /** A text on one line can only match at its start. */
  lemma OneLineHead(s: string, name: string)
    requires '\n' !in s
    ensures HasHead(s, name) <==> HeadAt(s, 0, name)
  {
    if HasHead(s, name) {
      var p :| 0 <= p <= |s| && HeadAt(s, p, name);
    }
  }

  // ---------------------------------------------------------------------
  // The uncovered case and the documented examples

  /** A fresh code cell with the given source. */
  function CodeCellOf(source: string): CellValue {
    CellValue(Code, source, map[], [], None)
  }

  /** A code line that names the flag as a variable: the written pattern
      flags it, the intended one does not. */
  lemma UngroupedFlagsCode(s: string)
    requires s == "hide_input = True"
    ensures ReFlagsSearch(s) && !GroupedSearch(s)
    ensures CellCheckFlagsAsWritten(CodeCellOf(s)) && !CellCheckFlags(CodeCellOf(s))
  {
    BranchesValue();
    assert StartsAt(s, 0, Branches[1]);
    forall k | 0 <= k < |Branches| ensures !HasHead(s, Branches[k]) {
      NoHashNoHead(s, Branches[k]);
    }
  }

  /** A bare flag name without `#` is not a match. */
  lemma ReFlagsBareName(s: string)
    requires s == "hide"
    ensures !ReFlagsSearch(s) && !GroupedSearch(s)
  {
    BranchesValue();
    forall k | 0 <= k < |Branches| ensures !HasHead(s, Branches[k]) {
      NoHashNoHead(s, Branches[k]);
    }
    forall k | 1 <= k < |Branches| ensures !Contains(s, Branches[k]) {
    }
  }

  /** A flag comment on the second line is found. */
  lemma ReFlagsSecondLine(s: string)
    requires s == "hide\n #hide"
    ensures ReFlagsSearch(s) && GroupedSearch(s)
  {
    BranchesValue();
    assert SkipSpace(s, 5) == 6;
    assert SkipSpace(s, 7) == 7;
    assert HeadAt(s, 5, Branches[0]);
  }

  lemma CellCheckFlagsHide(s: string)
    requires s == "# hide"
    ensures CellCheckFlags(CodeCellOf(s))
    ensures CellCheckFlagsAsWritten(CodeCellOf(s))
  {
    BranchesValue();
    assert SkipSpace(s, 0) == 0;
    assert SkipSpace(s, 1) == 2;
    assert HeadAt(s, 0, Branches[0]);
  }

  /** Text between `#` and the flag, or before the `#`, blocks the match. */
  lemma CellCheckFlagsBlocked(s: string)
    requires s == "# do hide" || s == "aaa # hide"
    ensures !CellCheckFlags(CodeCellOf(s))
    ensures !CellCheckFlagsAsWritten(CodeCellOf(s))
  {
    BranchesValue();
    forall k | 0 <= k < |Branches| ensures !HasHead(s, Branches[k]) {
      OneLineHead(s, Branches[k]);
      if s == "# do hide" {
        assert SkipSpace(s, 0) == 0;
        assert SkipSpace(s, 1) == 2;
      } else {
        assert SkipSpace(s, 0) == 0;
      }
    }
    forall k | 1 <= k < |Branches| ensures !Contains(s, Branches[k]) {
      var t := Branches[k];
      forall i | 0 <= i <= |s| ensures !StartsAt(s, i, t) {
        if i + |t| <= |s| {
          assert s[i..i + |t|][0] == s[0] != t[0];
        }
      }
    }
  }

  /** Markdown cells are never flagged, whatever their source. */
  lemma CellCheckFlagsMarkdown(v: CellValue)
    requires v.kind != Code
    ensures !CellCheckFlags(v) && !CellCheckFlagsAsWritten(v)
  {
  }
}
