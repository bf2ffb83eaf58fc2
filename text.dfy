/** Python string operations the conversion pipeline relies on: whitespace
    classes, `startswith`, `in`, `strip`, `split`, `join`, `replace` and
    decimal formatting of an index. */
module Text {

  /** Python's `str.isspace()`; it is also the class `\s` matches in a `str` pattern. */
  predicate IsSpace(c: char) {
    var n := c as int;
    n == 0x20 || 0x09 <= n <= 0x0D || 0x1C <= n <= 0x1F || n == 0x85 || n == 0xA0 ||
    n == 0x1680 || 0x2000 <= n <= 0x200A || n == 0x2028 || n == 0x2029 || n == 0x202F ||
    n == 0x205F || n == 0x3000
  }

  /** `\w`, restricted to ASCII letters, digits and the underscore. */
  predicate IsWordChar(c: char) {
    'a' <= c <= 'z' || 'A' <= c <= 'Z' || '0' <= c <= '9' || c == '_'
  }

  predicate AllSpace(s: string) {
    forall i | 0 <= i < |s| :: IsSpace(s[i])
  }

  /** `t` occurs in `s` at index `i`. */
  predicate StartsAt(s: string, i: nat, t: string) {
    i + |t| <= |s| && s[i..i + |t|] == t
  }

  /** `s.startswith(t)` */
  predicate StartsWith(s: string, t: string) {
    StartsAt(s, 0, t)
  }

  /** `s.endswith(t)` */
  predicate EndsWith(s: string, t: string) {
    |t| <= |s| && s[|s| - |t|..] == t
  }

  /** `t in s` */
  predicate Contains(s: string, t: string) {
    exists i | 0 <= i <= |s| :: StartsAt(s, i, t)
  }

  /** The first index at or after `i` where `t` occurs in `s`, or -1 (`s.find(t, i)`). */
  function FindFrom(s: string, t: string, i: nat): (r: int)
    requires i <= |s|
    ensures r >= 0 ==> i <= r <= |s| && StartsAt(s, r, t)
    ensures r >= 0 ==> forall k | i <= k < r :: !StartsAt(s, k, t)
    ensures r < 0 ==> r == -1 && forall k | i <= k <= |s| :: !StartsAt(s, k, t)
    decreases |s| - i
  {
    if StartsAt(s, i, t) then i
    else if i == |s| then -1
    else FindFrom(s, t, i + 1)
  }

  /** `s.split(sep)`: the pieces between the non-overlapping occurrences of
      `sep`, found from left to right. */
  function Split(s: string, sep: string): (r: seq<string>)
    requires |sep| > 0
    ensures |r| >= 1
    decreases |s|
  {
    var i := FindFrom(s, sep, 0);
    if i < 0 then [s] else [s[..i]] + Split(s[i + |sep|..], sep)
  }

  /** `sep.join(parts)` */
  function Join(parts: seq<string>, sep: string): string {
    if |parts| == 0 then ""
    else if |parts| == 1 then parts[0]
    else parts[0] + sep + Join(parts[1..], sep)
  }

  /** `s.replace(a, b)` for single characters. */
  function ReplaceChar(s: string, a: char, b: char): string {
    seq(|s|, i requires 0 <= i < |s| => if s[i] == a then b else s[i])
  }

  function LeadingSpace(s: string): (n: nat)
    ensures n <= |s| && AllSpace(s[..n])
    ensures n < |s| ==> !IsSpace(s[n])
  {
    if s != [] && IsSpace(s[0]) then
      var n := 1 + LeadingSpace(s[1..]);
      assert s[..n] == [s[0]] + s[1..][..n - 1];
      n
    else 0
  }

  function TrailingSpace(s: string): (n: nat)
    ensures n <= |s| && AllSpace(s[|s| - n..])
    ensures n < |s| ==> !IsSpace(s[|s| - n - 1])
  {
    if s != [] && IsSpace(s[|s| - 1]) then
      var m := TrailingSpace(s[..|s| - 1]);
      TrailingStep(s, m);
      1 + m
    else 0
  }

  lemma TrailingStep(s: string, m: nat)
    requires s != [] && IsSpace(s[|s| - 1]) && m < |s|
    requires AllSpace(s[..|s| - 1][|s| - 1 - m..])
    requires m < |s| - 1 ==> !IsSpace(s[..|s| - 1][|s| - 1 - m - 1])
    ensures AllSpace(s[|s| - (m + 1)..])
    ensures m + 1 < |s| ==> !IsSpace(s[|s| - (m + 1) - 1])
  {
    assert s[|s| - (m + 1)..] == s[..|s| - 1][|s| - 1 - m..] + [s[|s| - 1]];
    AllSpaceSnoc(s[..|s| - 1][|s| - 1 - m..], s[|s| - 1]);
  }

  lemma AllSpaceSnoc(t: string, c: char)
    requires AllSpace(t) && IsSpace(c)
    ensures AllSpace(t + [c])
  {
    assert forall k | 0 <= k < |t| :: (t + [c])[k] == t[k];
  }

  /** `s.lstrip()`: the suffix of `s` left after its leading whitespace. */
  function LStrip(s: string): (r: string)
    ensures |r| <= |s| && r == s[|s| - |r|..] && AllSpace(s[..|s| - |r|])
    ensures r != "" ==> !IsSpace(r[0])
  {
    s[LeadingSpace(s)..]
  }

  /** `s.rstrip()`: the prefix of `s` before its trailing whitespace. */
  function RStrip(s: string): (r: string)
    ensures |r| <= |s| && r == s[..|r|] && AllSpace(s[|r|..])
    ensures r != "" ==> !IsSpace(r[|r| - 1])
  {
    s[..|s| - TrailingSpace(s)]
  }

  /** `s.strip()`: a piece of `s` with no whitespace at either end; it is
      empty exactly when `s` is blank. */
  function Strip(s: string): (r: string)
    ensures Contains(s, r)
    ensures r == "" <==> AllSpace(s)
    ensures r != "" ==> !IsSpace(r[0]) && !IsSpace(r[|r| - 1])
  {
    var l := LStrip(s);
    var r := RStrip(l);
    StripPieces(s, l, r);
    r
  }

  lemma StripPieces(s: string, l: string, r: string)
    requires |l| <= |s| && l == s[|s| - |l|..] && AllSpace(s[..|s| - |l|])
    requires l != "" ==> !IsSpace(l[0])
    requires |r| <= |l| && r == l[..|r|] && AllSpace(l[|r|..])
    ensures StartsAt(s, |s| - |l|, r)
    ensures r == "" <==> AllSpace(s)
  {
    assert s[|s| - |l|..][..|r|] == s[|s| - |l|..|s| - |l| + |r|];
    if r == "" {
      assert l[|r|..] == l;
      assert s == s[..|s| - |l|] + l;
      AllSpaceConcat(s[..|s| - |l|], l);
    } else {
      assert s[|s| - |l|] == l[0];
    }
  }

  lemma AllSpaceConcat(a: string, b: string)
    requires AllSpace(a) && AllSpace(b)
    ensures AllSpace(a + b)
  {
    assert forall k | 0 <= k < |a| + |b| :: (a + b)[k] == if k < |a| then a[k] else b[k - |a|];
  }

  /** `^` under `re.M`: the start of the text or just after a newline. */
  predicate LineStart(s: string, i: nat) {
    i == 0 || (0 < i <= |s| && s[i - 1] == '\n')
  }

  /** `$` under `re.M`: the end of the text or just before a newline. */
  predicate LineEnd(s: string, i: nat) {
    i == |s| || (i < |s| && s[i] == '\n')
  }

  /** The end of the longest run of whitespace starting at `i` (greedy `\s*`). */
  function SkipSpace(s: string, i: nat): (j: nat)
    requires i <= |s|
    ensures i <= j <= |s| && AllSpace(s[i..j])
    ensures j < |s| ==> !IsSpace(s[j])
    decreases |s| - i
  {
    if i < |s| && IsSpace(s[i]) then
      var j := SkipSpace(s, i + 1);
      assert s[i..j] == [s[i]] + s[i + 1..j];
      j
    else i
  }

  /** The end of the longest run of word characters starting at `i` (greedy `\w*`). */
  function SkipWord(s: string, i: nat): (j: nat)
    requires i <= |s|
    ensures i <= j <= |s| && forall k | i <= k < j :: IsWordChar(s[k])
    ensures j < |s| ==> !IsWordChar(s[j])
    decreases |s| - i
  {
    if i < |s| && IsWordChar(s[i]) then SkipWord(s, i + 1) else i
  }

  /** The end of the line holding `i` (greedy `.*`, which stops at a newline). */
  function LineEndFrom(s: string, i: nat): (j: nat)
    requires i <= |s|
    ensures i <= j <= |s| && LineEnd(s, j)
    ensures forall k | i <= k < j :: s[k] != '\n'
    decreases |s| - i
  {
    if i == |s| || s[i] == '\n' then i else LineEndFrom(s, i + 1)
  }

  /** A whitespace run ends no earlier than any all-blank stretch from the same start. */
  lemma SkipSpaceCovers(s: string, i: nat, j: nat)
    requires i <= j <= |s| && AllSpace(s[i..j])
    ensures j <= SkipSpace(s, i)
  {
    forall k | i <= k < j ensures IsSpace(s[k]) {
      assert s[i..j][k - i] == s[k];
    }
  }

  /** A blank stretch followed by a non-blank character is exactly the whitespace run. */
  lemma SkipSpaceExact(s: string, i: nat, j: nat)
    requires i <= j < |s| && AllSpace(s[i..j]) && !IsSpace(s[j])
    ensures SkipSpace(s, i) == j
  {
    SkipSpaceCovers(s, i, j);
    var m := SkipSpace(s, i);
    forall k | i <= k < m ensures IsSpace(s[k]) {
      assert s[i..m][k - i] == s[k];
    }
  }

  /** Every stretch inside a blank stretch is blank. */
  lemma AllSpaceSlice(s: string, i: nat, j: nat, a: nat, b: nat)
    requires i <= a <= b <= j <= |s| && AllSpace(s[i..j])
    ensures AllSpace(s[a..b])
  {
    forall k | 0 <= k < b - a ensures IsSpace(s[a..b][k]) {
      assert s[a..b][k] == s[i..j][a - i + k];
    }
  }

  /** Decimal digits of `n`, as `f"{n}"` prints them. */
  function NatToString(n: nat): (r: string)
    ensures r != "" && forall i | 0 <= i < |r| :: '0' <= r[i] <= '9'
  {
    var d := ['0' + (n % 10) as char];
    if n < 10 then d else NatToString(n / 10) + d
  }

  // ---------------------------------------------------------------------
  // Lemmas

  /** An occurrence inside a slice is an occurrence in the whole string. */
  lemma StartsAtSlice(s: string, a: nat, b: nat, k: nat, t: string)
    requires a <= b <= |s| && StartsAt(s[a..b], k, t)
    ensures StartsAt(s, a + k, t)
  {
    var u := s[a..b];
    forall j | 0 <= j < |t| ensures s[a + k..a + k + |t|][j] == t[j] {
      assert u[k..k + |t|][j] == u[k + j] == s[a + k + j];
    }
  }

  /** An occurrence fixes each character it covers. */
  lemma StartsAtChar(s: string, i: nat, t: string, k: nat)
    requires StartsAt(s, i, t) && k < |t|
    ensures s[i + k] == t[k]
  {
    assert s[i + k] == s[i..i + |t|][k];
  }

  /** Being a piece of is transitive. */
  lemma ContainsTrans(s: string, r: string, t: string)
    requires Contains(s, r) && Contains(r, t)
    ensures Contains(s, t)
  {
    var a :| 0 <= a <= |s| && StartsAt(s, a, r);
    var b :| 0 <= b <= |r| && StartsAt(r, b, t);
    assert r == s[a..a + |r|];
    StartsAtSlice(s, a, a + |r|, b, t);
  }

  /** The prefix before the first occurrence of `t` does not contain `t`. */
  lemma PrefixBeforeFirst(s: string, t: string, i: nat)
    requires |t| > 0 && i <= |s| && forall k | 0 <= k < i :: !StartsAt(s, k, t)
    ensures !Contains(s[..i], t)
  {
    if Contains(s[..i], t) {
      var k :| 0 <= k <= i && StartsAt(s[..i], k, t);
      assert s[..i] == s[0..i];
      StartsAtSlice(s, 0, i, k, t);
    }
  }

  /** A suffix of a string free of `t` is free of `t`. */
  lemma SuffixFree(s: string, t: string, i: nat)
    requires i <= |s| && forall k | i <= k <= |s| :: !StartsAt(s, k, t)
    ensures !Contains(s[i..], t)
  {
    if Contains(s[i..], t) {
      var k :| 0 <= k <= |s[i..]| && StartsAt(s[i..], k, t);
      assert s[i..] == s[i..|s|];
      StartsAtSlice(s, i, |s|, k, t);
    }
  }

  /** `sep.join(s.split(sep)) == s`. */
  lemma {:induction false} SplitJoin(s: string, sep: string)
    requires |sep| > 0
    ensures Join(Split(s, sep), sep) == s
    decreases |s|
  {
    var i := FindFrom(s, sep, 0);
    var parts := Split(s, sep);
    if i >= 0 {
      var rest := s[i + |sep|..];
      var tail := Split(rest, sep);
      assert parts == [s[..i]] + tail;
      SplitJoin(rest, sep);
      calc {
        Join(parts, sep);
        parts[0] + sep + Join(parts[1..], sep);
        { assert parts[1..] == tail; }
        s[..i] + sep + rest;
        { assert s[i..i + |sep|] == sep; }
        s;
      }
    }
  }

  /** No piece of `s.split(sep)` contains `sep`. */
  lemma {:induction false} SplitPiecesFree(s: string, sep: string)
    requires |sep| > 0
    ensures forall k | 0 <= k < |Split(s, sep)| :: !Contains(Split(s, sep)[k], sep)
    decreases |s|
  {
    var i := FindFrom(s, sep, 0);
    if i < 0 {
      SuffixFree(s, sep, 0);
      assert s[0..] == s;
    } else {
      PrefixBeforeFirst(s, sep, i);
      SplitPiecesFree(s[i + |sep|..], sep);
    }
  }

  /** Text without `sep` splits into itself alone. */
  lemma SplitWithoutSep(s: string, sep: string)
    requires |sep| > 0 && !Contains(s, sep)
    ensures Split(s, sep) == [s]
  {
  }

  /** Text that contains `sep` splits into at least two pieces. */
  lemma SplitWithSep(s: string, sep: string)
    requires |sep| > 0 && Contains(s, sep)
    ensures |Split(s, sep)| >= 2
  {
    var k :| 0 <= k <= |s| && StartsAt(s, k, sep);
    var i := FindFrom(s, sep, 0);
  }

  /** Splitting on a one-character separator undoes joining pieces that do not contain it. */
  lemma {:induction false} JoinSplit(parts: seq<string>, sep: string)
    requires |sep| == 1 && |parts| > 0
    requires forall k | 0 <= k < |parts| :: !Contains(parts[k], sep)
    ensures Split(Join(parts, sep), sep) == parts
  {
    var p := parts[0];
    if |parts| == 1 {
      SplitWithoutSep(p, sep);
    } else {
      var rest := Join(parts[1..], sep);
      var s := p + sep + rest;
      assert s == Join(parts, sep);
      forall k | 0 <= k < |p| ensures !StartsAt(s, k, sep) {
        if StartsAt(s, k, sep) {
          assert s[k] == sep[0] == p[k];
          assert StartsAt(p, k, sep);
        }
      }
      assert StartsAt(s, |p|, sep);
      assert FindFrom(s, sep, 0) == |p|;
      assert s[..|p|] == p;
      assert s[|p| + 1..] == rest;
      JoinSplit(parts[1..], sep);
    }
  }

  /** Joining with a blank separator is blank exactly when every part is. */
  lemma {:induction false} JoinAllSpace(parts: seq<string>, sep: string)
    requires AllSpace(sep)
    ensures AllSpace(Join(parts, sep)) <==> forall k | 0 <= k < |parts| :: AllSpace(parts[k])
  {
    if |parts| >= 2 {
      var rest := Join(parts[1..], sep);
      JoinAllSpace(parts[1..], sep);
      var s := parts[0] + sep + rest;
      if AllSpace(s) {
        forall k | 0 <= k < |parts| ensures AllSpace(parts[k]) {
          if k == 0 {
            assert forall i | 0 <= i < |parts[0]| :: s[i] == parts[0][i];
          } else {
            assert forall i | 0 <= i < |rest| :: s[|parts[0]| + |sep| + i] == rest[i];
            assert parts[1..][k - 1] == parts[k];
          }
        }
      }
      if forall k | 0 <= k < |parts| :: AllSpace(parts[k]) {
        assert forall k | 0 <= k < |parts[1..]| :: parts[1..][k] == parts[k + 1];
        assert AllSpace(parts[0]);
      }
    }
  }

  /** Joining is splitting off the last part. */
  lemma {:induction false} JoinSnoc(parts: seq<string>, sep: string)
    requires |parts| >= 2
    ensures Join(parts, sep) == Join(parts[..|parts| - 1], sep) + sep + parts[|parts| - 1]
  {
    if |parts| > 2 {
      JoinSnoc(parts[1..], sep);
      assert parts[1..][..|parts| - 2] == parts[..|parts| - 1][1..];
    }
  }

  /** Every piece occurs in the joined text. */
  lemma {:induction false} JoinContainsPart(parts: seq<string>, sep: string, k: nat)
    requires k < |parts|
    ensures Contains(Join(parts, sep), parts[k])
    decreases |parts|
  {
    var j := Join(parts, sep);
    if |parts| == 1 || k == 0 {
      assert StartsAt(j, 0, parts[k]);
    } else {
      var rest := Join(parts[1..], sep);
      JoinContainsPart(parts[1..], sep, k - 1);
      assert StartsAt(j, |parts[0] + sep|, rest);
      ContainsTrans(j, rest, parts[k]);
    }
  }
}
