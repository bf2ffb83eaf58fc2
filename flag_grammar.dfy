/** The directive-flag grammar: flag names, the alternation string built from
    them, and the line-anchored flag patterns `^\s*\#\s*(flags)\s*$` compiled
    with `re.M`, modelled as a matcher that follows the regex engine's
    backtracking order. */
module FlagGrammar {
  import opened Text
  import opened Wrappers

  const Hide: seq<string> := ["hide"]
  const HideInput: seq<string> := ["hide_input"]
  const HideOutput: seq<string> := ["hide_output"]
  const HideFlags: seq<string> := Hide + HideInput + HideOutput
  const Flags: seq<string> := HideFlags
  const CollapseOutput: string := "collapse_output"
  const OutputCode: string := "output_code"

  /** Marks a cell boundary in exported text. */
  const CellFlag: string := "###cell"
  /** Marks a cell boundary in the final Markdown. */
  const CellSeparator: string := "<!-- cell -->\n"

  /** The flag with every `_` replaced by `-`. */
  function HyphenAlias(flag: string): string {
    ReplaceChar(flag, '_', '-')
  }

  /** The hyphen alias of each flag that contains `_`, in the flags' order. */
  function HyphenAliases(flags: seq<string>): seq<string> {
    if flags == [] then []
    else (if '_' in flags[0] then [HyphenAlias(flags[0])] else []) + HyphenAliases(flags[1..])
  }

  /** The alternatives a flag pattern accepts: the flags themselves, then their aliases. */
  function Alternatives(flags: seq<string>): seq<string> {
    flags + HyphenAliases(flags)
  }

  /** `generate_flags_string`: the flags and their hyphen aliases joined by `|`;
      the list it is given is left as it was. */
  method GenerateFlagsString(flags: seq<string>) returns (s: string)
    ensures s == Join(Alternatives(flags), "|")
  {
    var resultFlags := flags;
    for i := 0 to |flags|
      invariant resultFlags == flags + HyphenAliases(flags[..i])
    {
      assert flags[..i + 1] == flags[..i] + [flags[i]];
      HyphenAliasesSnoc(flags[..i], flags[i]);
      if '_' in flags[i] {
        resultFlags := resultFlags + [HyphenAlias(flags[i])];
      }
    }
    assert flags[..|flags|] == flags;
    s := Join(resultFlags, "|");
  }

  /** Extending the flags by one extends the aliases by that flag's alias, if any. */
  lemma {:induction false} HyphenAliasesSnoc(fs: seq<string>, f: string)
    ensures HyphenAliases(fs + [f]) == HyphenAliases(fs) + (if '_' in f then [HyphenAlias(f)] else [])
  {
    if fs != [] {
      assert (fs + [f])[1..] == fs[1..] + [f];
      HyphenAliasesSnoc(fs[1..], f);
    }
  }

  /** An alias contains no `_`; every flag with `_` has its alias among the
      aliases; every alias is the alias of such a flag. */
  lemma {:induction false} HyphenAliasesSpec(flags: seq<string>)
    ensures forall a | a in HyphenAliases(flags) :: '_' !in a
    ensures forall f | f in flags && '_' in f :: HyphenAlias(f) in HyphenAliases(flags)
    ensures forall a | a in HyphenAliases(flags) ::
      exists f | f in flags :: '_' in f && a == HyphenAlias(f)
  {
    if flags != [] {
      var rest := flags[1..];
      var first := flags[0];
      HyphenAliasesSpec(rest);
      assert flags == [first] + rest;
      var l := HyphenAlias(first);
      assert '_' !in l by {
        forall k | 0 <= k < |l| ensures l[k] != '_' { }
      }
    }
  }

  /** Flags without `_` get no aliases: the alternation is exactly the `|`-join. */
  lemma {:induction false} NoUnderscoreNoAliases(flags: seq<string>)
    requires forall f | f in flags :: '_' !in f
    ensures Alternatives(flags) == flags
  {
    if flags != [] {
      NoUnderscoreNoAliases(flags[1..]);
      assert flags[0] in flags;
    }
  }

  /** The alternation string denotes the alternatives: splitting it on `|`
      gives them back, provided no flag contains `|`. */
  lemma AlternationRoundTrip(flags: seq<string>)
    requires flags != []
    requires forall f | f in flags :: '|' !in f
    ensures Split(Join(Alternatives(flags), "|"), "|") == Alternatives(flags)
  {
    var alts := Alternatives(flags);
    forall k | 0 <= k < |alts| ensures !Contains(alts[k], "|") {
      AlternativeNoBar(flags, k);
      NoBarNoMatch(alts[k]);
    }
    JoinSplit(alts, "|");
  }

  /** No alternative contains `|` when no flag does. */
  lemma AlternativeNoBar(flags: seq<string>, k: nat)
    requires forall f | f in flags :: '|' !in f
    requires k < |Alternatives(flags)|
    ensures '|' !in Alternatives(flags)[k]
  {
    var a := Alternatives(flags)[k];
    if k >= |flags| {
      HyphenAliasesSpec(flags);
      assert a in HyphenAliases(flags);
      var f :| f in flags && '_' in f && a == HyphenAlias(f);
      AliasNoBar(f);
    } else {
      assert a in flags;
    }
  }

  lemma AliasNoBar(f: string)
    requires '|' !in f
    ensures '|' !in HyphenAlias(f)
  {
    var a := HyphenAlias(f);
    forall c | 0 <= c < |a| ensures a[c] != '|' {
      assert f[c] in f;
    }
  }

  lemma NoBarNoMatch(a: string)
    requires '|' !in a
    ensures !Contains(a, "|")
  {
    forall i | 0 <= i <= |a| ensures !StartsAt(a, i, "|") {
      if i < |a| {
        assert a[i..i + 1][0] == a[i];
      }
    }
  }

  /** `["flag1", "flag2"]` gives `"flag1|flag2"`. */
  lemma GenerateFlagsStringPlain(flags: seq<string>)
    requires flags == ["flag1", "flag2"]
    ensures Join(Alternatives(flags), "|") == "flag1|flag2"
  {
    NoUnderscoreNoAliases(flags);
    assert flags[1..] == ["flag2"];
  }

  /** `["flag_1", "flag_2"]` also offers `flag-1` and `flag-2`. */
  lemma GenerateFlagsStringAliases(flags: seq<string>)
    requires flags == ["flag_1", "flag_2"]
    ensures Alternatives(flags) == ["flag_1", "flag_2", "flag-1", "flag-2"]
    ensures Contains(Join(Alternatives(flags), "|"), "flag-1")
    ensures Contains(Join(Alternatives(flags), "|"), "flag-2")
  {
    AliasesExample();
    JoinExample();
  }

  lemma AliasesExample()
    ensures HyphenAliases(["flag_1", "flag_2"]) == ["flag-1", "flag-2"]
  {
    var u := ["flag_1", "flag_2"];
    assert u[1..] == ["flag_2"];
    assert ["flag_2"][1..] == [];
    assert '_' in "flag_1" && '_' in "flag_2";
    var a1 := HyphenAlias("flag_1");
    assert |a1| == 6;
    assert a1 == "flag-1";
    var a2 := HyphenAlias("flag_2");
    assert |a2| == 6;
    assert a2 == "flag-2";
  }

  lemma JoinExample()
    ensures Contains(Join(["flag_1", "flag_2", "flag-1", "flag-2"], "|"), "flag-1")
    ensures Contains(Join(["flag_1", "flag_2", "flag-1", "flag-2"], "|"), "flag-2")
  {
    var parts := ["flag_1", "flag_2", "flag-1", "flag-2"];
    JoinContainsPart(parts, "|", 2);
    JoinContainsPart(parts, "|", 3);
  }

  // ---------------------------------------------------------------------
  // Flag patterns

  /** A compiled `^\s*\#\s*(a1|a2|...)\s*$` pattern with `re.M`. The names are
      matched literally. The `\s*\n*$` ending used in src/nbdocs/re_tools.py
      ends every match where `\s*$` does, so one model serves both files. */
  datatype FlagPattern = FlagPattern(alternatives: seq<string>)

  /** `get_flags_re` */
  function GetFlagsRe(flags: seq<string>): FlagPattern {
    FlagPattern(Alternatives(flags))
  }

  const ReFlags: FlagPattern := GetFlagsRe(Flags)
  const ReHide: FlagPattern := GetFlagsRe(Hide)
  const ReHideInput: FlagPattern := GetFlagsRe(HideInput)
  const ReHideOutput: FlagPattern := GetFlagsRe(HideOutput)
  const ReCollapse: FlagPattern := GetFlagsRe([CollapseOutput])
  const ReOutputCode: FlagPattern := GetFlagsRe([OutputCode])

  /** Where a match starts, where its `#` is, where the flag name starts, which
      alternative matched, and where the match ends. */
  datatype FlagMatch = FlagMatch(start: nat, hash: nat, name: nat, alt: nat, end: nat)

  /** The language of the pattern: `m` is a match of `p` in `s`. */
  ghost predicate IsFlagLine(p: FlagPattern, s: string, m: FlagMatch) {
    m.start <= m.hash < m.name <= |s| && m.alt < |p.alternatives| &&
    LineStart(s, m.start) && AllSpace(s[m.start..m.hash]) && s[m.hash] == '#' &&
    AllSpace(s[m.hash + 1..m.name]) && StartsAt(s, m.name, p.alternatives[m.alt]) &&
    m.name + |p.alternatives[m.alt]| <= m.end <= |s| &&
    AllSpace(s[m.name + |p.alternatives[m.alt]|..m.end]) && LineEnd(s, m.end)
  }

  ghost predicate HasFlagLine(p: FlagPattern, s: string) {
    exists m :: IsFlagLine(p, s, m)
  }

  /** The greedy `\s*$`: the last line end in `[lo, hi]`. */
  function LastLineEnd(s: string, lo: nat, hi: nat): (r: Option<nat>)
    requires lo <= hi <= |s|
    ensures r.Some? ==> lo <= r.value <= hi && LineEnd(s, r.value)
    ensures r.None? ==> forall e | lo <= e <= hi :: !LineEnd(s, e)
    decreases hi - lo
  {
    if LineEnd(s, hi) then Some(hi)
    else if hi == lo then None
    else LastLineEnd(s, lo, hi - 1)
  }

  /** `(a1|a2|...)\s*$` at `k`, trying the alternatives from number `n` on in order;
      gives the alternative that matched and the end of the match. */
  function TryAlternatives(p: FlagPattern, s: string, k: nat, n: nat): (r: Option<(nat, nat)>)
    requires k <= |s| && n <= |p.alternatives|
    ensures r.Some? ==>
      var (a, e) := r.value;
      n <= a < |p.alternatives| && StartsAt(s, k, p.alternatives[a]) &&
      k + |p.alternatives[a]| <= e <= |s| &&
      AllSpace(s[k + |p.alternatives[a]|..e]) && LineEnd(s, e)
    decreases |p.alternatives| - n
  {
    if n == |p.alternatives| then None
    else
      var a := p.alternatives[n];
      if StartsAt(s, k, a) then
        var hi := SkipSpace(s, k + |a|);
        match LastLineEnd(s, k + |a|, hi)
        case Some(e) =>
          AllSpaceSlice(s, k + |a|, hi, k + |a|, e);
          Some((n, e))
        case None => TryAlternatives(p, s, k, n + 1)
      else TryAlternatives(p, s, k, n + 1)
  }

  /** The greedy `\s*` before the name: tries name starts `k`, `k - 1`, ..., `lo`. */
  function TryNameFrom(p: FlagPattern, s: string, lo: nat, k: nat): (r: Option<(nat, nat, nat)>)
    requires lo <= k <= |s|
    ensures r.Some? ==>
      var (k', a, e) := r.value;
      lo <= k' <= k && a < |p.alternatives| && StartsAt(s, k', p.alternatives[a]) &&
      k' + |p.alternatives[a]| <= e <= |s| &&
      AllSpace(s[k' + |p.alternatives[a]|..e]) && LineEnd(s, e)
    decreases k - lo
  {
    match TryAlternatives(p, s, k, 0)
    case Some((a, e)) => Some((k, a, e))
    case None => if k == lo then None else TryNameFrom(p, s, lo, k - 1)
  }

  /** The match of `p` that starts at `i`, if there is one. */
  function MatchAt(p: FlagPattern, s: string, i: nat): (r: Option<FlagMatch>)
    requires i <= |s|
    ensures r.Some? ==> r.value.start == i && IsFlagLine(p, s, r.value)
  {
    if !LineStart(s, i) then None
    else
      var j := SkipSpace(s, i);
      if j < |s| && s[j] == '#' then
        var hi := SkipSpace(s, j + 1);
        match TryNameFrom(p, s, j + 1, hi)
        case None => None
        case Some((k, a, e)) =>
          AllSpaceSlice(s, j + 1, hi, j + 1, k);
          Some(FlagMatch(i, j, k, a, e))
      else None
  }

  /** The leftmost match at or after `from`. */
  function FindMatch(p: FlagPattern, s: string, from: nat): (r: Option<FlagMatch>)
    requires from <= |s|
    ensures r.Some? ==> from <= r.value.start && IsFlagLine(p, s, r.value)
    ensures r.Some? ==> r.value.start <= |s| && MatchAt(p, s, r.value.start) == r
    decreases |s| - from
  {
    match MatchAt(p, s, from)
    case Some(m) => Some(m)
    case None => if from == |s| then None else FindMatch(p, s, from + 1)
  }

  /** A position where the pattern matches stops the search there or earlier. */
  lemma {:induction false} FindMatchStops(p: FlagPattern, s: string, from: nat, i: nat)
    requires from <= i <= |s| && MatchAt(p, s, i).Some?
    ensures FindMatch(p, s, from).Some? && FindMatch(p, s, from).value.start <= i
    decreases i - from
  {
    if MatchAt(p, s, from).None? {
      FindMatchStops(p, s, from + 1, i);
    }
  }

  /** The search finds the leftmost match: no position it passes over starts one. */
  lemma FindMatchLeftmost(p: FlagPattern, s: string, from: nat)
    requires from <= |s|
    ensures FindMatch(p, s, from).Some? ==>
      forall i | from <= i < FindMatch(p, s, from).value.start :: MatchAt(p, s, i).None?
    ensures FindMatch(p, s, from).None? ==> forall i | from <= i <= |s| :: MatchAt(p, s, i).None?
  {
    forall i | from <= i <= |s| && MatchAt(p, s, i).Some? {
      FindMatchStops(p, s, from, i);
    }
  }

  /** `pattern.search(s) is not None` */
  predicate Search(p: FlagPattern, s: string) {
    FindMatch(p, s, 0).Some?
  }

  /** `pattern.sub("", s[pos..])`, continuing a scan of `s` at `pos`. */
  function SubFrom(p: FlagPattern, s: string, pos: nat): (r: string)
    requires pos <= |s|
    decreases |s| - pos
  {
    match FindMatch(p, s, pos)
    case None => s[pos..]
    case Some(m) => s[pos..m.start] + SubFrom(p, s, m.end)
  }

  /** `pattern.sub("", s)`: every match deleted. */
  function Sub(p: FlagPattern, s: string): string {
    SubFrom(p, s, 0)
  }

  // ---------------------------------------------------------------------
  // The matcher against the language

  lemma {:induction false} TryAlternativesComplete(p: FlagPattern, s: string, k: nat, n: nat, a: nat, e: nat)
    requires k <= |s| && n <= a < |p.alternatives|
    requires StartsAt(s, k, p.alternatives[a])
    requires k + |p.alternatives[a]| <= e <= |s|
    requires AllSpace(s[k + |p.alternatives[a]|..e]) && LineEnd(s, e)
    ensures TryAlternatives(p, s, k, n).Some?
    decreases a - n
  {
    var b := p.alternatives[n];
    if StartsAt(s, k, b) && LastLineEnd(s, k + |b|, SkipSpace(s, k + |b|)).Some? {
    } else if n == a {
      SkipSpaceCovers(s, k + |b|, e);
    } else {
      TryAlternativesComplete(p, s, k, n + 1, a, e);
    }
  }

  lemma {:induction false} TryNameFromComplete(p: FlagPattern, s: string, lo: nat, hi: nat, k: nat)
    requires lo <= k <= hi <= |s| && TryAlternatives(p, s, k, 0).Some?
    ensures TryNameFrom(p, s, lo, hi).Some?
    decreases hi - lo
  {
    if hi > k && TryAlternatives(p, s, hi, 0).None? {
      TryNameFromComplete(p, s, lo, hi - 1, k);
    }
  }

  /** Every match in the language is found by the matcher at its start. */
  lemma MatchAtComplete(p: FlagPattern, s: string, m: FlagMatch)
    requires IsFlagLine(p, s, m)
    ensures MatchAt(p, s, m.start).Some?
  {
    FlagLineHead(p, s, m);
    NameAfterHashComplete(p, s, m);
    MatchAtIntro(p, s, m.start, m.hash);
  }

  /** The greedy run from the start of a match stops at its `#`. */
  lemma FlagLineHead(p: FlagPattern, s: string, m: FlagMatch)
    requires IsFlagLine(p, s, m)
    ensures m.start <= m.hash < |s| && LineStart(s, m.start) && s[m.hash] == '#'
    ensures SkipSpace(s, m.start) == m.hash
  {
    assert !IsSpace(s[m.hash]);
    SkipSpaceExact(s, m.start, m.hash);
  }

  /** The matcher succeeds at `i` when the greedy run ends on a `#` after
      which the name search succeeds. */
  lemma MatchAtIntro(p: FlagPattern, s: string, i: nat, j: nat)
    requires i <= j < |s| && LineStart(s, i) && SkipSpace(s, i) == j && s[j] == '#'
    requires TryNameFrom(p, s, j + 1, SkipSpace(s, j + 1)).Some?
    ensures MatchAt(p, s, i).Some?
  {
  }

  /** After the `#` of a match, the name search succeeds. */
  lemma NameAfterHashComplete(p: FlagPattern, s: string, m: FlagMatch)
    requires IsFlagLine(p, s, m)
    ensures TryNameFrom(p, s, m.hash + 1, SkipSpace(s, m.hash + 1)).Some?
  {
    NameStartComplete(p, s, m);
    TryNameFromComplete(p, s, m.hash + 1, SkipSpace(s, m.hash + 1), m.name);
  }

  /** The name of a match starts within the greedy run after its `#`, and the
      alternatives succeed there. */
  lemma NameStartComplete(p: FlagPattern, s: string, m: FlagMatch)
    requires IsFlagLine(p, s, m)
    ensures m.hash + 1 <= m.name <= SkipSpace(s, m.hash + 1) <= |s|
    ensures TryAlternatives(p, s, m.name, 0).Some?
  {
    SkipSpaceCovers(s, m.hash + 1, m.name);
    TryAlternativesComplete(p, s, m.name, 0, m.alt, m.end);
  }

  /** A pattern finds something in `s` exactly when some line of `s` (possibly
      after blank lines) is `#`, optional whitespace, one alternative, and only
      whitespace up to a line end. */
  lemma SearchIffFlagLine(p: FlagPattern, s: string)
    ensures Search(p, s) <==> HasFlagLine(p, s)
  {
    if HasFlagLine(p, s) {
      var m :| IsFlagLine(p, s, m);
      MatchAtComplete(p, s, m);
      FindMatchStops(p, s, 0, m.start);
    }
  }

  /** Text without any `#` holds no flag. */
  lemma NoHashNoFlag(p: FlagPattern, s: string)
    requires '#' !in s
    ensures !Search(p, s)
  {
    SearchIffFlagLine(p, s);
  }

  /** Deleting matches leaves text without a match unchanged and makes text
      with a match strictly shorter. */
  lemma {:induction false} SubFromLength(p: FlagPattern, s: string, pos: nat)
    requires pos <= |s|
    ensures FindMatch(p, s, pos).None? ==> SubFrom(p, s, pos) == s[pos..]
    ensures FindMatch(p, s, pos).Some? ==> |SubFrom(p, s, pos)| < |s| - pos
    ensures |SubFrom(p, s, pos)| <= |s| - pos
    decreases |s| - pos
  {
    match FindMatch(p, s, pos)
    case None =>
    case Some(m) =>
      SubFromLength(p, s, m.end);
  }

  lemma SubWithoutMatch(p: FlagPattern, s: string)
    ensures !Search(p, s) ==> Sub(p, s) == s
    ensures Search(p, s) ==> |Sub(p, s)| < |s|
  {
    SubFromLength(p, s, 0);
  }

  // ---------------------------------------------------------------------
  // The predefined patterns

  lemma HyphenAliasOf(f: string, g: string)
    requires |f| == |g| && '_' in f
    requires forall i | 0 <= i < |f| :: g[i] == (if f[i] == '_' then '-' else f[i])
    ensures HyphenAlias(f) == g && HyphenAliases([f]) == [g]
  {
    assert [f][1..] == [];
    assert HyphenAlias(f) == g;
  }

  lemma HideAlternatives()
    ensures ReHide.alternatives == ["hide"]
  {
    NoUnderscoreNoAliases(Hide);
  }

  lemma HideInputAlternatives()
    ensures ReHideInput.alternatives == ["hide_input", "hide-input"]
  {
    HyphenAliasOf("hide_input", "hide-input");
  }

  lemma HideOutputAlternatives()
    ensures ReHideOutput.alternatives == ["hide_output", "hide-output"]
  {
    HyphenAliasOf("hide_output", "hide-output");
  }

  lemma CollapseAlternatives()
    ensures ReCollapse.alternatives == ["collapse_output", "collapse-output"]
  {
    HyphenAliasOf("collapse_output", "collapse-output");
  }

  lemma OutputCodeAlternatives()
    ensures ReOutputCode.alternatives == ["output_code", "output-code"]
  {
    HyphenAliasOf("output_code", "output-code");
  }

  lemma FlagsAlternatives()
    ensures ReFlags.alternatives == ["hide", "hide_input", "hide_output", "hide-input", "hide-output"]
  {
    var c: seq<string> := ["hide", "hide_input", "hide_output"];
    assert Flags == c;
    assert c[1..] == ["hide_input", "hide_output"];
    assert c[1..][1..] == ["hide_output"];
    assert '_' !in "hide";
    HyphenAliasOf("hide_input", "hide-input");
    HyphenAliasOf("hide_output", "hide-output");
  }

  /** On a single line only the start of the text can start a match. */
  lemma {:induction false} NoMatchAfterStart(p: FlagPattern, s: string, from: nat)
    requires '\n' !in s && 1 <= from <= |s|
    ensures FindMatch(p, s, from).None?
    decreases |s| - from
  {
    assert s[from - 1] in s;
    if from < |s| {
      NoMatchAfterStart(p, s, from + 1);
    }
  }

  lemma SingleLineSearch(p: FlagPattern, s: string)
    requires '\n' !in s
    ensures Search(p, s) <==> MatchAt(p, s, 0).Some?
  {
    if |s| > 0 {
      NoMatchAfterStart(p, s, 1);
    }
  }

  lemma HideExamples()
    ensures Search(ReHide, "# hide") && Search(ReHide, "#hide")
    ensures !Search(ReHide, "# hide_input")
  {
    HideAlternatives();
    HideSpaced();
    HideTight();
    HideInputNotHide();
  }

  lemma HideSpaced()
    ensures Search(FlagPattern(["hide"]), "# hide")
  {
    FlagLineFound(FlagPattern(["hide"]), "# hide", " ", 0);
  }

  lemma HideTight()
    ensures Search(FlagPattern(["hide"]), "#hide")
  {
    FlagLineFound(FlagPattern(["hide"]), "#hide", "", 0);
  }

  lemma HideInputNotHide()
    ensures !Search(FlagPattern(["hide"]), "# hide_input")
  {
    HideInputNotHideAt2();
    NotHideFrom(FlagPattern(["hide"]), "# hide_input");
  }

  lemma NotHideFrom(p: FlagPattern, s: string)
    requires p == FlagPattern(["hide"]) && s == "# hide_input"
    requires TryAlternatives(p, s, 2, 0) == None
    ensures !Search(p, s)
  {
    SingleLineSearch(p, s);
    assert SkipSpace(s, 1) == 2;
    assert s[1..5][0] == ' ';
    assert !StartsAt(s, 1, "hide");
    assert TryAlternatives(p, s, 1, 0) == None;
  }

  lemma HideInputNotHideAt2()
    ensures TryAlternatives(FlagPattern(["hide"]), "# hide_input", 2, 0) == None
  {
    var p := FlagPattern(["hide"]);
    var s := "# hide_input";
    assert s[6] == '_' && !IsSpace(s[6]);
    assert SkipSpace(s, 6) == 6;
    assert LastLineEnd(s, 6, 6) == None;
    assert StartsAt(s, 2, "hide");
  }

  /** A pattern whose alternatives all fail to occur in `s` finds nothing there. */
  lemma AbsentAlternatives(p: FlagPattern, s: string)
    requires forall k | 0 <= k < |p.alternatives| :: !Contains(s, p.alternatives[k])
    ensures !Search(p, s)
  {
    SearchIffFlagLine(p, s);
  }

  /** No match starts at or after `from` when no `#` follows it. */
  lemma NoHashAfter(p: FlagPattern, s: string, from: nat)
    requires from <= |s| && forall i | from <= i < |s| :: s[i] != '#'
    ensures FindMatch(p, s, from).None?
  {
  }

  /** Witnesses a flag line and concludes that the pattern finds it. */
  lemma Found(p: FlagPattern, s: string, m: FlagMatch)
    requires IsFlagLine(p, s, m)
    ensures Search(p, s)
  {
    SearchIffFlagLine(p, s);
  }

  /** A line that is `#`, whitespace and an alternative is found. */
  lemma FlagLineFound(p: FlagPattern, s: string, sp: string, n: nat)
    requires n < |p.alternatives| && AllSpace(sp) && s == "#" + sp + p.alternatives[n]
    ensures Search(p, s)
  {
    assert s[0..0] == [] && s[1..1 + |sp|] == sp;
    assert s[1 + |sp|..] == p.alternatives[n];
    assert s[|s|..|s|] == [];
    Found(p, s, FlagMatch(0, 0, 1 + |sp|, n, |s|));
  }

  lemma HideInputFindsSpaced()
    ensures Search(ReHideInput, "# hide_input")
  {
    HideInputAlternatives();
    FlagLineFound(ReHideInput, "# hide_input", " ", 0);
  }

  lemma HideInputFindsTight()
    ensures Search(ReHideInput, "#hide_input")
  {
    HideInputAlternatives();
    FlagLineFound(ReHideInput, "#hide_input", "", 0);
  }

  lemma HideInputIgnoresHide()
    ensures !Search(ReHideInput, "# hide")
  {
    HideInputAlternatives();
    AbsentAlternatives(ReHideInput, "# hide");
  }

  lemma HideOutputFindsSpaced()
    ensures Search(ReHideOutput, "# hide_output")
  {
    HideOutputAlternatives();
    FlagLineFound(ReHideOutput, "# hide_output", " ", 0);
  }

  lemma HideOutputFindsTight()
    ensures Search(ReHideOutput, "#hide_output")
  {
    HideOutputAlternatives();
    FlagLineFound(ReHideOutput, "#hide_output", "", 0);
  }

  lemma HideOutputIgnoresOtherFlags()
    ensures !Search(ReHideOutput, "# hide") && !Search(ReHideOutput, "# hide_input")
  {
    HideOutputAlternatives();
    AbsentAlternatives(ReHideOutput, "# hide");
    HideOutputNotInHideInput(ReHideOutput, "# hide_input");
    AbsentAlternatives(ReHideOutput, "# hide_input");
  }

  lemma HideOutputNotInHideInput(p: FlagPattern, s: string)
    requires p.alternatives == ["hide_output", "hide-output"] && s == "# hide_input"
    ensures forall k | 0 <= k < |p.alternatives| :: !Contains(s, p.alternatives[k])
  {
    forall k, i | 0 <= k < 2 && 0 <= i <= |s| ensures !StartsAt(s, i, p.alternatives[k]) {
      if i <= 1 {
        assert s[i..i + 11][0] == s[i] != 'h' == p.alternatives[k][0];
      }
    }
  }

  /** Text on the flag's line blocks it; a flag on a later line is found. */
  lemma FlagsExamples()
    ensures !Search(ReFlags, "hide")
    ensures Search(ReFlags, "hide\n #hide")
  {
    FlagsAlternatives();
    NoHashNoFlag(ReFlags, "hide");
    Found(ReFlags, "hide\n #hide", FlagMatch(5, 6, 7, 0, 11));
  }

  /** Deleting the flag line and left-stripping leaves the code. */
  lemma HideOutputSubExample()
    ensures LStrip(Sub(ReHideOutput, "#hide_output\nSome text")) == "Some text"
  {
    HideOutputAlternatives();
    HideOutputSub(ReHideOutput, "#hide_output\nSome text");
    StripNewline("\nSome text");
  }

  lemma StripNewline(t: string)
    requires t == "\nSome text"
    ensures LStrip(t) == "Some text"
  {
    assert LeadingSpace(t[1..]) == 0;
    assert LeadingSpace(t) == 1;
  }

  lemma HideOutputSub(p: FlagPattern, s: string)
    requires p.alternatives == ["hide_output", "hide-output"] && s == "#hide_output\nSome text"
    ensures Sub(p, s) == "\nSome text"
  {
    HideOutputMatch(p, s);
    assert FindMatch(p, s, 0) == Some(FlagMatch(0, 0, 1, 0, 12));
    NoHashAfter(p, s, 12);
    assert SubFrom(p, s, 12) == s[12..];
    assert s[12..] == "\nSome text";
  }

  lemma HideOutputMatch(p: FlagPattern, s: string)
    requires p.alternatives == ["hide_output", "hide-output"] && s == "#hide_output\nSome text"
    ensures MatchAt(p, s, 0) == Some(FlagMatch(0, 0, 1, 0, 12))
  {
    HideOutputTry(p, s);
    assert SkipSpace(s, 0) == 0;
    assert SkipSpace(s, 1) == 1;
    assert TryNameFrom(p, s, 1, 1) == Some((1, 0, 12));
  }

  lemma HideOutputTry(p: FlagPattern, s: string)
    requires p.alternatives == ["hide_output", "hide-output"] && s == "#hide_output\nSome text"
    ensures TryAlternatives(p, s, 1, 0) == Some((0, 12))
  {
    assert SkipSpace(s, 12) == 13;
    assert LastLineEnd(s, 12, 13) == Some(12);
    assert s[1..12] == p.alternatives[0];
  }
}
