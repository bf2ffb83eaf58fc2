/** The image-link pattern of nbdocs/process.py,
    `(\!\[.*\])(\s*\(\s*)(?P<path>NAME)(\s*\))`, as a matcher that tries the
    candidates in the order the regex engine backtracks through them: the
    greedy `.*` of the alt text from the longest, the `\s*` before the path
    from the longest, and, for the `.*` path, the path from the longest. A
    name is matched literally except that `.` stands for any character but a
    newline. */
module ImageLinks {
  import opened Text
  import opened Wrappers

  /** What the path group matches: any text on the line, or a given name. */
  datatype PathPattern = AnyPath | Literal(name: string)

  /** `get_image_link_re(image_name)`: an empty name means any path. */
  function GetImageLinkRe(imageName: string): (p: PathPattern)
    ensures p.AnyPath? <==> imageName == ""
  {
    if imageName == "" then AnyPath else Literal(imageName)
  }

  /** A match: `![` at `start`, `]` at `close`, the path group
      `[pathStart, pathEnd)`, and the match ends at `end`, after `)`. */
  datatype LinkMatch = LinkMatch(start: nat, close: nat, pathStart: nat, pathEnd: nat, end: nat)

  /** `name` matches at `q`; `.` matches any character but a newline. */
  predicate NameAt(s: string, q: nat, name: string) {
    q + |name| <= |s| &&
    forall k | 0 <= k < |name| :: if name[k] == '.' then s[q + k] != '\n' else s[q + k] == name[k]
  }

  predicate NoNewline(s: string, i: nat, j: nat)
    requires i <= j <= |s|
  {
    forall k | i <= k < j :: s[k] != '\n'
  }

  /** The path group may span `[q, e)`. */
  predicate PathFits(s: string, q: nat, e: nat, pat: PathPattern)
    requires q <= e <= |s|
  {
    match pat
    case AnyPath => NoNewline(s, q, e)
    case Literal(name) => e == q + |name| && NameAt(s, q, name)
  }

  /** `\s*\)` spans `[e, end)`. */
  predicate Closes(s: string, e: nat, end: nat) {
    e < end <= |s| && AllSpace(s[e..end - 1]) && s[end - 1] == ')'
  }

  /** The regex matches at `m` (any choice of the backtracking points). */
  ghost predicate IsLink(s: string, m: LinkMatch, pat: PathPattern) {
    StartsAt(s, m.start, "![") && m.start + 2 <= m.close < m.pathStart <= m.pathEnd < m.end <= |s| &&
    NoNewline(s, m.start + 2, m.close) && s[m.close] == ']' &&
    (exists o | m.close < o < m.pathStart ::
      AllSpace(s[m.close + 1..o]) && s[o] == '(' && AllSpace(s[o + 1..m.pathStart])) &&
    PathFits(s, m.pathStart, m.pathEnd, pat) && Closes(s, m.pathEnd, m.end)
  }

  // ---------------------------------------------------------------------
  // The matcher

  /** `\s*\)` from `e`: the greedy run must stop at `)`. */
  function CloseAfter(s: string, e: nat): (r: Option<nat>)
    requires e <= |s|
    ensures r.Some? ==> Closes(s, e, r.value)
    ensures r.None? ==> forall end :: !Closes(s, e, end)
  {
    var j := SkipSpace(s, e);
    if j < |s| && s[j] == ')' then
      assert s[e..j + 1 - 1] == s[e..j];
      Some(j + 1)
    else
      assert forall end: nat | Closes(s, e, end) :: false by {
        forall end: nat | Closes(s, e, end) ensures false {
          SkipSpaceExact(s, e, end - 1);
        }
      }
      None
  }

  /** The `.*` path from `q`, trying the ends from `e` down to `q`. */
  function AnyPathEnd(s: string, q: nat, e: nat): (r: Option<(nat, nat)>)
    requires q <= e <= |s| && NoNewline(s, q, e)
    ensures r.Some? ==> q <= r.value.0 <= e && NoNewline(s, q, r.value.0) && Closes(s, r.value.0, r.value.1)
    ensures r.None? ==> forall e', end | q <= e' <= e :: !Closes(s, e', end)
    decreases e
  {
    match CloseAfter(s, e)
    case Some(end) => Some((e, end))
    case None => if e == q then None else AnyPathEnd(s, q, e - 1)
  }

  /** The path group and the closing `\s*\)` from `q`: the end of the path
      and the end of the match. */
  function PathAt(s: string, q: nat, pat: PathPattern): (r: Option<(nat, nat)>)
    requires q <= |s|
    ensures r.Some? ==> q <= r.value.0 <= |s| && PathFits(s, q, r.value.0, pat) && Closes(s, r.value.0, r.value.1)
  {
    match pat
    case AnyPath => AnyPathEnd(s, q, LineEndFrom(s, q))
    case Literal(name) =>
      if NameAt(s, q, name) then
        match CloseAfter(s, q + |name|)
        case Some(end) => Some((q + |name|, end))
        case None => None
      else None
  }

  /** The `\s*` before the path, trying the path starts from `q` down to `a`. */
  function PathFrom(s: string, a: nat, q: nat, pat: PathPattern): (r: Option<(nat, nat, nat)>)
    requires a <= q <= |s| && AllSpace(s[a..q])
    ensures r.Some? ==> a <= r.value.0 <= q && AllSpace(s[a..r.value.0])
    ensures r.Some? ==> r.value.0 <= r.value.1 <= |s| && PathFits(s, r.value.0, r.value.1, pat) && Closes(s, r.value.1, r.value.2)
    ensures r.None? ==> forall q' | a <= q' <= q :: PathAt(s, q', pat).None?
    decreases q
  {
    match PathAt(s, q, pat)
    case Some(ends) => Some((q, ends.0, ends.1))
    case None =>
      if q == a then None
      else
        AllSpaceSlice(s, a, q, a, q - 1);
        PathFrom(s, a, q - 1, pat)
  }

  /** Everything after the `]` at `close`: `\s*\(`, then the path. */
  function AfterClose(s: string, close: nat, pat: PathPattern): (r: Option<(nat, nat, nat)>)
    requires close < |s|
    ensures r.Some? ==>
      && close < r.value.0 && r.value.0 <= r.value.1 <= |s|
      && (exists o | close < o < r.value.0 :: AllSpace(s[close + 1..o]) && s[o] == '(' && AllSpace(s[o + 1..r.value.0]))
      && PathFits(s, r.value.0, r.value.1, pat) && Closes(s, r.value.1, r.value.2)
  {
    var o := SkipSpace(s, close + 1);
    if o < |s| && s[o] == '(' then
      var r := PathFrom(s, o + 1, SkipSpace(s, o + 1), pat);
      if r.Some? then
        assert AllSpace(s[close + 1..o]) && s[o] == '(' && AllSpace(s[o + 1..r.value.0]);
        r
      else None
    else None
  }

  /** The `.*\]` of the alt text, trying the `]` positions below `hi` from the right. */
  function CloseBelow(s: string, i: nat, hi: nat, pat: PathPattern): (r: Option<LinkMatch>)
    requires i + 2 <= hi <= |s| && StartsAt(s, i, "![") && NoNewline(s, i + 2, hi)
    ensures r.Some? ==> r.value.start == i && r.value.close < hi && IsLink(s, r.value, pat)
    ensures r.None? ==> forall b | i + 2 <= b < hi :: !(s[b] == ']' && AfterClose(s, b, pat).Some?)
    decreases hi
  {
    if hi == i + 2 then None
    else
      var b := hi - 1;
      var after := if s[b] == ']' then AfterClose(s, b, pat) else None;
      if after.Some? then
        Some(LinkMatch(i, b, after.value.0, after.value.1, after.value.2))
      else CloseBelow(s, i, hi - 1, pat)
  }

  /** The match starting at `i`, as the engine finds it, if any. */
  function LinkAt(s: string, i: nat, pat: PathPattern): (r: Option<LinkMatch>)
    requires i <= |s|
    ensures r.Some? ==> r.value.start == i && IsLink(s, r.value, pat)
  {
    if StartsAt(s, i, "![") then CloseBelow(s, i, LineEndFrom(s, i + 2), pat) else None
  }

  /** `search` from `pos`: the leftmost match. */
  function FindLink(s: string, pos: nat, pat: PathPattern): (r: Option<LinkMatch>)
    requires pos <= |s|
    ensures r.Some? ==> pos <= r.value.start <= |s| && LinkAt(s, r.value.start, pat) == r
    decreases |s| - pos
  {
    var here := LinkAt(s, pos, pat);
    if here.Some? then here
    else if pos == |s| then None
    else FindLink(s, pos + 1, pat)
  }

  /** A position holding a match stops the search there or earlier. */
  lemma {:induction false} FindLinkStops(s: string, pos: nat, i: nat, pat: PathPattern)
    requires pos <= i <= |s| && LinkAt(s, i, pat).Some?
    ensures FindLink(s, pos, pat).Some? && FindLink(s, pos, pat).value.start <= i
    decreases i - pos
  {
    if LinkAt(s, pos, pat).None? {
      FindLinkStops(s, pos + 1, i, pat);
    }
  }

  /** The search finds the leftmost match: no position it passes over starts one. */
  lemma FindLinkLeftmost(s: string, pos: nat, pat: PathPattern)
    requires pos <= |s|
    ensures FindLink(s, pos, pat).Some? ==>
      forall i | pos <= i < FindLink(s, pos, pat).value.start :: LinkAt(s, i, pat).None?
    ensures FindLink(s, pos, pat).None? ==> forall i | pos <= i <= |s| :: LinkAt(s, i, pat).None?
  {
    forall i | pos <= i <= |s| && LinkAt(s, i, pat).Some? {
      FindLinkStops(s, pos, i, pat);
    }
  }

  /** `finditer` from `pos`: each match, the next search starting at its end. */
  function FindAll(s: string, pos: nat, pat: PathPattern): (r: seq<LinkMatch>)
    requires pos <= |s|
    ensures forall k | 0 <= k < |r| :: pos <= r[k].start && IsLink(s, r[k], pat)
    decreases |s| - pos
  {
    match FindLink(s, pos, pat)
    case None => []
    case Some(m) => [m] + FindAll(s, m.end, pat)
  }

  /** `sub(r"\1(" + target + ")", s[pos..])`: every match becomes its
      `![alt]` group followed by the target in parentheses. */
  function SubLinks(s: string, pos: nat, pat: PathPattern, target: string): string
    requires pos <= |s|
    decreases |s| - pos
  {
    match FindLink(s, pos, pat)
    case None => s[pos..]
    case Some(m) => s[pos..m.close + 1] + "(" + target + ")" + SubLinks(s, m.end, pat, target)
  }

  /** `correct_output_image_link`: links to `image_name` are pointed into `image_path`. */
  function CorrectOutputImageLink(imageName: string, imagePath: string, md: string): string {
    SubLinks(md, 0, Literal(imageName), imagePath + "/" + imageName)
  }

  // ---------------------------------------------------------------------
  // The matcher against the regex

  /** Whenever the regex can match at `m.start`, the matcher finds a match there. */
  lemma LinkAtComplete(s: string, m: LinkMatch, pat: PathPattern)
    requires IsLink(s, m, pat)
    ensures LinkAt(s, m.start, pat).Some?
  {
    AfterCloseOf(s, m, pat);
    CloseBelowComplete(s, m.start, LineEndFrom(s, m.start + 2), m.close, pat);
  }

  /** After the `]` of a match, the matcher finds the path. */
  lemma AfterCloseOf(s: string, m: LinkMatch, pat: PathPattern)
    requires IsLink(s, m, pat)
    ensures AfterClose(s, m.close, pat).Some?
  {
    var o :| m.close < o < m.pathStart && AllSpace(s[m.close + 1..o]) && s[o] == '(' && AllSpace(s[o + 1..m.pathStart]);
    PathAtComplete(s, m.pathStart, m.pathEnd, m.end, pat);
    AfterCloseComplete(s, m.close, o, m.pathStart, pat);
  }

  lemma CloseBelowComplete(s: string, i: nat, hi: nat, b: nat, pat: PathPattern)
    requires i + 2 <= b < |s| && StartsAt(s, i, "![") && NoNewline(s, i + 2, b) && s[b] == ']'
    requires hi == LineEndFrom(s, i + 2) && AfterClose(s, b, pat).Some?
    ensures CloseBelow(s, i, hi, pat).Some?
  {
    assert b < hi;
  }

  lemma AfterCloseComplete(s: string, close: nat, o: nat, q0: nat, pat: PathPattern)
    requires close < o < q0 <= |s| && AllSpace(s[close + 1..o]) && s[o] == '(' && AllSpace(s[o + 1..q0])
    requires PathAt(s, q0, pat).Some?
    ensures AfterClose(s, close, pat).Some?
  {
    SkipSpaceExact(s, close + 1, o);
    SkipSpaceCovers(s, o + 1, q0);
  }

  lemma PathAtComplete(s: string, q: nat, e: nat, end: nat, pat: PathPattern)
    requires q <= e <= |s| && PathFits(s, q, e, pat) && Closes(s, e, end)
    ensures PathAt(s, q, pat).Some?
  {
  }

  /** No match anywhere from `pos` on: the search finds nothing and the
      substitution leaves the rest of the text as it is. */
  lemma NoLinkUnchanged(s: string, pos: nat, pat: PathPattern, target: string)
    requires pos <= |s|
    requires forall m: LinkMatch | pos <= m.start :: !IsLink(s, m, pat)
    ensures FindLink(s, pos, pat).None? && FindAll(s, pos, pat) == []
    ensures SubLinks(s, pos, pat, target) == s[pos..]
  {
  }

  /** A text without `![` has no link. */
  lemma NoBangNoLink(s: string, pat: PathPattern)
    requires forall i | 0 <= i < |s| :: !StartsAt(s, i, "![")
    ensures forall m :: !IsLink(s, m, pat)
  {
  }

  /** The search finds nothing exactly when the regex matches nowhere from `pos` on. */
  lemma FindLinkNone(s: string, pos: nat, pat: PathPattern)
    requires pos <= |s|
    ensures FindLink(s, pos, pat).None? <==> forall m: LinkMatch | pos <= m.start :: !IsLink(s, m, pat)
  {
    if FindLink(s, pos, pat).None? {
      forall m: LinkMatch | pos <= m.start && IsLink(s, m, pat) ensures false {
        LinkAtComplete(s, m, pat);
        FindLinkStops(s, pos, m.start, pat);
      }
    }
  }

  // ---------------------------------------------------------------------
  // A text made of one link

  /** `]` positions to the right of the one that matches are passed over. */
  lemma {:induction false} CloseBelowSkips(s: string, i: nat, lo: nat, hi: nat, pat: PathPattern)
    requires i + 2 <= lo <= hi <= |s| && StartsAt(s, i, "![") && NoNewline(s, i + 2, hi)
    requires forall b | lo <= b < hi :: s[b] != ']'
    ensures CloseBelow(s, i, hi, pat) == CloseBelow(s, i, lo, pat)
    decreases hi
  {
    if hi > lo {
      CloseBelowSkips(s, i, lo, hi - 1, pat);
    }
  }

  /** Positions without `!` start no match. */
  lemma {:induction false} NoBangFrom(s: string, pos: nat, pat: PathPattern)
    requires pos <= |s| && forall i | pos <= i < |s| :: s[i] != '!'
    ensures FindLink(s, pos, pat).None?
    decreases |s| - pos
  {
    if pos < |s| {
      assert !StartsAt(s, pos, "![") by {
        if pos + 2 <= |s| {
          assert s[pos..pos + 2][0] == s[pos];
        }
      }
      NoBangFrom(s, pos + 1, pat);
    }
  }

  /** The shape of `![alt](name)` by positions: `]` at `b`, the name at
      `b + 2`, nothing on the line but one `]`. */
  predicate OneLinkShape(s: string, b: nat, name: string) {
    && |s| == b + |name| + 3 && b >= 2
    && s[0] == '!' && s[1] == '[' && s[b] == ']' && s[b + 1] == '(' && s[|s| - 1] == ')'
    && (forall k | 2 <= k < |s| && k != b :: s[k] != ']')
    && (forall k | 2 <= k < |s| :: s[k] != '\n')
    && s[b + 2..b + 2 + |name|] == name
  }

  lemma OneLinkShapeOf(s: string, alt: string, name: string)
    requires s == "![" + alt + "](" + name + ")"
    requires '\n' !in alt && ']' !in alt && '\n' !in name && ']' !in name
    ensures OneLinkShape(s, |alt| + 2, name)
  {
    var b := |alt| + 2;
    var q := b + 2;
    assert forall k | 2 <= k < b :: s[k] == alt[k - 2];
    assert forall k | q <= k < q + |name| :: s[k] == name[k - q];
    forall k | 2 <= k < |s| ensures s[k] != '\n' && (k != b ==> s[k] != ']') {
      if k < b {
        assert alt[k - 2] in alt;
      } else if q <= k < q + |name| {
        assert name[k - q] in name;
      }
    }
  }

  /** After the `]` of such a text come `(`, the name and `)`. */
  lemma OneLinkAfterClose(s: string, b: nat, name: string)
    requires OneLinkShape(s, b, name)
    requires name == "" || !IsSpace(name[0])
    ensures AfterClose(s, b, Literal(name)) == Some((b + 2, b + 2 + |name|, |s|))
  {
    OneLinkName(s, b, name);
    assert SkipSpace(s, b + 1) == b + 1;
    assert SkipSpace(s, b + 2 + |name|) == |s| - 1;
  }

  /** The name of such a text starts right after the `(`. */
  lemma OneLinkName(s: string, b: nat, name: string)
    requires OneLinkShape(s, b, name)
    requires name == "" || !IsSpace(name[0])
    ensures SkipSpace(s, b + 2) == b + 2 && NameAt(s, b + 2, name)
  {
    var q := b + 2;
    if name != "" {
      assert s[q] == s[q..q + |name|][0];
    }
    forall k | 0 <= k < |name| ensures s[q + k] == name[k] {
      assert s[q + k] == s[q..q + |name|][k];
    }
  }

  /** On such a text the matcher finds the whole text as the link. */
  lemma OneLinkMatch(s: string, b: nat, name: string)
    requires OneLinkShape(s, b, name)
    requires name == "" || !IsSpace(name[0])
    ensures FindLink(s, 0, Literal(name)) == Some(LinkMatch(0, b, b + 2, b + 2 + |name|, |s|))
  {
    OneLinkAfterClose(s, b, name);
    OneLinkFound(s, b, name, Literal(name));
  }

  /** On such a text, a pattern that accepts the path after the `]` matches the whole text. */
  lemma OneLinkFound(s: string, b: nat, name: string, pat: PathPattern)
    requires OneLinkShape(s, b, name)
    requires AfterClose(s, b, pat) == Some((b + 2, b + 2 + |name|, |s|))
    ensures FindLink(s, 0, pat) == Some(LinkMatch(0, b, b + 2, b + 2 + |name|, |s|))
  {
    OneLinkLine(s, b, name);
    CloseBelowSkips(s, 0, b + 1, |s|, pat);
  }

  /** Such a text opens with `![` and is one line. */
  lemma OneLinkLine(s: string, b: nat, name: string)
    requires OneLinkShape(s, b, name)
    ensures StartsAt(s, 0, "![") && LineEndFrom(s, 2) == |s| && NoNewline(s, 2, |s|)
  {
    assert s[..2] == "![";
  }

  /** Replacing the links to `name` in the text `![alt](name)` gives
      `![alt](target)`. */
  lemma OneLinkSub(alt: string, name: string, target: string)
    requires '\n' !in alt && ']' !in alt && '\n' !in name && ']' !in name
    requires name == "" || !IsSpace(name[0])
    ensures SubLinks("![" + alt + "](" + name + ")", 0, Literal(name), target) == "![" + alt + "](" + target + ")"
  {
    var s := "![" + alt + "](" + name + ")";
    var b := |alt| + 2;
    OneLinkShapeOf(s, alt, name);
    OneLinkMatch(s, b, name);
    var head := s[..b + 1];
    assert SubLinks(s, 0, Literal(name), target) == head + "(" + target + ")" + SubLinks(s, |s|, Literal(name), target);
    assert SubLinks(s, |s|, Literal(name), target) == "";
    assert head == "![" + alt + "]";
    LinkText(alt, target);
  }

  lemma LinkText(alt: string, target: string)
    ensures ("![" + alt + "]") + "(" + target + ")" + "" == "![" + alt + "](" + target + ")"
  {
  }

  /** `correct_output_image_link` on the text `![alt](name)` gives
      `![alt](image_path/name)`. */
  lemma OneLinkCorrected(alt: string, name: string, imagePath: string)
    requires '\n' !in alt && ']' !in alt && '\n' !in name && ']' !in name
    requires name == "" || !IsSpace(name[0])
    ensures CorrectOutputImageLink(name, imagePath, "![" + alt + "](" + name + ")") ==
      "![" + alt + "](" + (imagePath + "/" + name) + ")"
  {
    OneLinkSub(alt, name, imagePath + "/" + name);
  }

  /** With any path allowed, the text `![alt](name)` is one match whose path
      group is `name`. */
  lemma OneLinkAny(s: string, alt: string, name: string)
    requires s == "![" + alt + "](" + name + ")"
    requires '\n' !in alt && ']' !in alt && '\n' !in name && ']' !in name
    requires name == "" || !IsSpace(name[0])
    ensures FindAll(s, 0, AnyPath) == [LinkMatch(0, |alt| + 2, |alt| + 4, |alt| + 4 + |name|, |s|)]
  {
    var b := |alt| + 2;
    OneLinkShapeOf(s, alt, name);
    OneLinkAnyAfterClose(s, b, name);
    OneLinkFound(s, b, name, AnyPath);
    assert FindAll(s, |s|, AnyPath) == [];
  }

  lemma OneLinkAnyAfterClose(s: string, b: nat, name: string)
    requires OneLinkShape(s, b, name)
    requires name == "" || !IsSpace(name[0])
    ensures AfterClose(s, b, AnyPath) == Some((b + 2, b + 2 + |name|, |s|))
  {
    var q := b + 2;
    assert SkipSpace(s, b + 1) == b + 1;
    assert SkipSpace(s, q) == q by {
      if name != "" {
        assert s[q] == s[q..q + |name|][0];
      }
    }
    assert LineEndFrom(s, q) == |s|;
    assert SkipSpace(s, |s|) == |s|;
    assert SkipSpace(s, |s| - 1) == |s| - 1;
    assert AnyPathEnd(s, q, |s|) == Some((|s| - 1, |s|));
  }

  /** The documented example: the output image is moved into `images`. */
  lemma OutputLinkExample(name: string, imagePath: string, md: string, expected: string)
    requires name == "output.jpg" && imagePath == "images"
    requires md == "![jpg](output.jpg)" && expected == "![jpg](images/output.jpg)"
    ensures CorrectOutputImageLink(name, imagePath, md) == expected
  {
    var alt := "jpg";
    ExampleTexts(alt, name, imagePath, md, expected);
    OneLinkCorrected(alt, name, imagePath);
  }

  lemma ExampleTexts(alt: string, name: string, imagePath: string, md: string, expected: string)
    requires alt == "jpg" && name == "output.jpg" && imagePath == "images"
    requires md == "![jpg](output.jpg)" && expected == "![jpg](images/output.jpg)"
    ensures '\n' !in alt && ']' !in alt && '\n' !in name && ']' !in name && !IsSpace(name[0])
    ensures md == "![" + alt + "](" + name + ")"
    ensures expected == "![" + alt + "](" + (imagePath + "/" + name) + ")"
  {
    ExampleChars(alt, name);
    ExampleLink(alt, name, md);
    ExampleLink(alt, imagePath + "/" + name, expected);
  }

  lemma ExampleChars(alt: string, name: string)
    requires alt == "jpg" && name == "output.jpg"
    ensures '\n' !in alt && ']' !in alt && '\n' !in name && ']' !in name && !IsSpace(name[0])
  {
  }

  lemma ExampleLink(alt: string, path: string, md: string)
    requires alt == "jpg" && (path == "output.jpg" || path == "images/output.jpg")
    requires md == "![jpg](" + path + ")"
    ensures md == "![" + alt + "](" + path + ")"
  {
  }

  /** A link to another name is left as it is. */
  lemma OutputLinkOtherName(name: string, imagePath: string, s: string)
    requires name == "output2.jpg" && imagePath == "images" && s == "![jpg](output.jpg)"
    ensures CorrectOutputImageLink(name, imagePath, s) == s
  {
    OtherNameNoLink(name, s);
    assert s[0..] == s;
  }

  lemma OtherNameNoLink(name: string, s: string)
    requires name == "output2.jpg" && s == "![jpg](output.jpg)"
    ensures FindLink(s, 0, Literal(name)).None?
  {
    var pat := Literal(name);
    OtherNameAt(name, s);
    NoBangFrom(s, 1, pat);
  }

  lemma OtherNameAt(name: string, s: string)
    requires name == "output2.jpg" && s == "![jpg](output.jpg)"
    ensures LinkAt(s, 0, Literal(name)).None?
  {
    var pat := Literal(name);
    assert LineEndFrom(s, 2) == |s|;
    CloseBelowSkips(s, 0, 6, |s|, pat);
    OtherNameAfterClose(name, s);
    CloseBelowSkips(s, 0, 2, 5, pat);
  }

  lemma OtherNameAfterClose(name: string, s: string)
    requires name == "output2.jpg" && s == "![jpg](output.jpg)"
    ensures AfterClose(s, 5, Literal(name)).None?
  {
    assert SkipSpace(s, 6) == 6;
    assert SkipSpace(s, 7) == 7;
    assert !NameAt(s, 7, name) by {
      assert name[6] == '2' && s[13] == '.';
    }
  }
}
