/** The part of `pathlib` the pipeline uses: joining, parent, name, stem and
    suffix. A path is an absolute flag and its components; `.` components and
    empty ones (from repeated slashes) are not kept, as `pathlib` drops them. */
module Paths {
  import opened Text
  import opened Wrappers
  import opened Seqs

  datatype Path = Path(absolute: bool, parts: seq<string>)

  /** Components as `pathlib` keeps them: non-empty, without `/`, not `.`. */
  predicate IsComponent(c: string) {
    c != "" && c != "." && '/' !in c
  }

  predicate Valid(p: Path) {
    forall k | 0 <= k < |p.parts| :: IsComponent(p.parts[k])
  }

  /** `Path(s)` */
  function Parse(s: string): (p: Path)
    ensures Valid(p)
  {
    var kept := Filter(Split(s, "/"), IsComponent);
    Path(StartsWith(s, "/"), kept)
  }

  /** `a / b` */
  function JoinPath(a: Path, b: Path): Path {
    if b.absolute then b else Path(a.absolute, a.parts + b.parts)
  }

  /** `a / name` for a single component name; an empty name adds nothing. */
  function Child(a: Path, name: string): Path {
    if name == "" then a else Path(a.absolute, a.parts + [name])
  }

  /** `p.name` */
  function Name(p: Path): string {
    if p.parts == [] then "" else p.parts[|p.parts| - 1]
  }

  /** `p.parent`: the root and the empty path are their own parents. */
  function Parent(p: Path): Path {
    if p.parts == [] then p else Path(p.absolute, p.parts[..|p.parts| - 1])
  }

  /** Index of the last `.` in a name, or -1. */
  function LastDot(name: string): (i: int)
    ensures -1 <= i < |name|
    ensures i >= 0 ==> name[i] == '.'
    ensures forall k | i < k < |name| :: name[k] != '.'
  {
    if name == [] then -1
    else if name[|name| - 1] == '.' then |name| - 1
    else LastDot(name[..|name| - 1])
  }

  /** `p.suffix` of a name: from the last dot, unless the dot leads or ends it. */
  function Suffix(name: string): string {
    var i := LastDot(name);
    if 0 < i < |name| - 1 then name[i..] else ""
  }

  /** `p.stem` of a name */
  function Stem(name: string): (r: string)
    ensures r + Suffix(name) == name
  {
    var i := LastDot(name);
    if 0 < i < |name| - 1 then name[..i] else name
  }

  /** `p.with_suffix(suffix)` for a valid suffix; a path without a name is an error. */
  function WithSuffix(p: Path, suffix: string): (r: Result<Path, string>)
    ensures r.Err? <==> Name(p) == ""
    ensures r.Ok? ==> Parent(r.value) == Parent(p) && Name(r.value) == Stem(Name(p)) + suffix
  {
    if Name(p) == "" then Err("ValueError")
    else Ok(Path(p.absolute, p.parts[..|p.parts| - 1] + [Stem(Name(p)) + suffix]))
  }

  /** `str(p)` */
  function PathString(p: Path): string {
    var body := Join(p.parts, "/");
    if p.absolute then "/" + body
    else if body == "" then "."
    else body
  }

  /** Joining a child and taking the parent gives the path back. */
  lemma ChildParent(a: Path, name: string)
    requires name != ""
    ensures Parent(Child(a, name)) == a && Name(Child(a, name)) == name
  {
    assert (a.parts + [name])[..|a.parts|] == a.parts;
  }

  /** A single component parses to a relative path of that one component. */
  lemma ParseName(s: string)
    requires IsComponent(s)
    ensures Parse(s) == Path(false, [s]) && Name(Parse(s)) == s
  {
    assert !Contains(s, "/") by {
      forall i | 0 <= i <= |s| ensures !StartsAt(s, i, "/") {
        if i + 1 <= |s| {
          assert s[i..i + 1][0] == s[i];
        }
      }
    }
    SplitWithoutSep(s, "/");
    assert Filter([s], IsComponent) == [s] + Filter([s][1..], IsComponent);
  }
}
