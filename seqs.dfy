/** List comprehensions with a condition: `[x for x in xs if keep(x)]`. */
module Seqs {
  function Filter<T>(xs: seq<T>, keep: T -> bool): (r: seq<T>)
    ensures |r| <= |xs|
    ensures forall k | 0 <= k < |r| :: keep(r[k])
  {
    if xs == [] then []
    else (if keep(xs[0]) then [xs[0]] else []) + Filter(xs[1..], keep)
  }

  /** Some element of a non-empty sequence has `p` when the first one or one of the rest has it. */
  lemma ExistsCons<T>(xs: seq<T>, p: T -> bool)
    requires xs != []
    ensures (exists k | 0 <= k < |xs| :: p(xs[k])) <==> p(xs[0]) || exists k | 0 <= k < |xs| - 1 :: p(xs[1..][k])
  {
    if exists k | 0 <= k < |xs| :: p(xs[k]) {
      var k :| 0 <= k < |xs| && p(xs[k]);
      if k > 0 {
        assert xs[1..][k - 1] == xs[k];
      }
    }
    if exists k | 0 <= k < |xs| - 1 :: p(xs[1..][k]) {
      var k :| 0 <= k < |xs| - 1 && p(xs[1..][k]);
      assert xs[k + 1] == xs[1..][k];
    }
  }

  /** Strictly increasing indices. */
  predicate Increasing(f: seq<nat>) {
    forall k, l | 0 <= k < l < |f| :: f[k] < f[l]
  }

  /** The filter keeps exactly the elements that satisfy the condition, in
      their order: `f` lists the indices of the kept elements. */
  lemma {:induction false} FilterIndices<T>(xs: seq<T>, keep: T -> bool) returns (f: seq<nat>)
    ensures |f| == |Filter(xs, keep)| && Increasing(f)
    ensures forall k | 0 <= k < |f| :: f[k] < |xs| && Filter(xs, keep)[k] == xs[f[k]]
    ensures forall j | 0 <= j < |xs| :: j in f <==> keep(xs[j])
  {
    if xs == [] {
      f := [];
    } else {
      var g := FilterIndices(xs[1..], keep);
      f := (if keep(xs[0]) then [0] else []) + Shifted(g);
      PrependIncreasing(g, keep(xs[0]));
      FilterIndicesStep(xs, keep, g);
      FilterMembershipStep(xs, keep, g);
    }
  }

  /** Every index moved up by one. */
  function Shifted(g: seq<nat>): (r: seq<nat>)
    ensures |r| == |g| && forall k | 0 <= k < |g| :: r[k] == g[k] + 1
  {
    seq(|g|, k requires 0 <= k < |g| => g[k] + 1)
  }

  lemma PrependIncreasing(g: seq<nat>, b: bool)
    requires Increasing(g)
    ensures Increasing((if b then [0] else []) + Shifted(g))
  {
    var r := Shifted(g);
    var f := (if b then [0] else []) + r;
    var d := |f| - |r|;
    forall k, l | 0 <= k < l < |f| ensures f[k] < f[l] {
      assert f[l] == r[l - d];
      if k >= d {
        assert f[k] == r[k - d];
      }
    }
  }

  lemma FilterIndicesStep<T>(xs: seq<T>, keep: T -> bool, g: seq<nat>)
    requires xs != []
    requires |g| == |Filter(xs[1..], keep)|
    requires forall k | 0 <= k < |g| :: g[k] < |xs| - 1 && Filter(xs[1..], keep)[k] == xs[1..][g[k]]
    ensures var f := (if keep(xs[0]) then [0] else []) + Shifted(g);
      && |f| == |Filter(xs, keep)|
      && forall k | 0 <= k < |f| :: f[k] < |xs| && Filter(xs, keep)[k] == xs[f[k]]
  {
    var rest := Filter(xs[1..], keep);
    var r := Filter(xs, keep);
    var head := if keep(xs[0]) then [xs[0]] else [];
    var sh := Shifted(g);
    var f := (if keep(xs[0]) then [0] else []) + sh;
    var d := |head|;
    assert r == head + rest;
    forall k | 0 <= k < |f| ensures f[k] < |xs| && r[k] == xs[f[k]] {
      if k >= d {
        var j := k - d;
        assert f[k] == sh[j] == g[j] + 1;
        assert r[k] == rest[j];
        assert xs[1..][g[j]] == xs[g[j] + 1];
      }
    }
  }

  lemma FilterMembershipStep<T>(xs: seq<T>, keep: T -> bool, g: seq<nat>)
    requires xs != []
    requires forall j | 0 <= j < |xs| - 1 :: j in g <==> keep(xs[1..][j])
    ensures var f := (if keep(xs[0]) then [0] else []) + Shifted(g);
      forall j | 0 <= j < |xs| :: j in f <==> keep(xs[j])
  {
    var sh := Shifted(g);
    var f := (if keep(xs[0]) then [0] else []) + sh;
    var d := |f| - |sh|;
    forall j | 0 <= j < |xs| ensures j in f <==> keep(xs[j]) {
      if j > 0 {
        assert xs[1..][j - 1] == xs[j];
        if j - 1 in g {
          var k :| 0 <= k < |g| && g[k] == j - 1;
          assert f[k + d] == sh[k];
        }
        if j in f {
          var k :| 0 <= k < |f| && f[k] == j;
          if k >= d {
            assert sh[k - d] == j;
          }
        }
      } else {
        assert 0 !in sh;
      }
    }
  }

  /** An index above all others keeps a list increasing. */
  lemma IncreasingSnoc(g: seq<nat>, n: nat)
    requires Increasing(g) && forall j | 0 <= j < |g| :: g[j] < n
    ensures Increasing(g + [n])
  {
  }

  /** Appending an element to a list: its index joins the indices of the
      elements with the property exactly when it has the property. */
  lemma IndicesSnoc<T>(xs: seq<T>, has: T -> bool, g: seq<nat>, f: seq<nat>)
    requires xs != [] && forall j | 0 <= j < |g| :: g[j] < |xs| - 1
    requires forall k | 0 <= k < |xs| - 1 :: k in g <==> has(xs[k])
    requires f == if has(xs[|xs| - 1]) then g + [|xs| - 1] else g
    ensures forall k | 0 <= k < |xs| :: k in f <==> has(xs[k])
  {
    assert |xs| - 1 !in g;
  }

  /** When every element satisfies the condition, nothing is dropped. */
  lemma {:induction false} FilterAll<T>(xs: seq<T>, keep: T -> bool)
    requires forall k | 0 <= k < |xs| :: keep(xs[k])
    ensures Filter(xs, keep) == xs
  {
    if xs != [] {
      FilterAll(xs[1..], keep);
    }
  }

  /** When no element satisfies the condition, everything is dropped. */
  lemma {:induction false} FilterNone<T>(xs: seq<T>, keep: T -> bool)
    requires forall k | 0 <= k < |xs| :: !keep(xs[k])
    ensures Filter(xs, keep) == []
  {
    if xs != [] {
      FilterNone(xs[1..], keep);
    }
  }
}
