/**
 * Fill-in: the edges that eliminating a vertex would add, that is the pairs
 * of its neighbours that are not yet adjacent.  The heuristics count them
 * over a listing of the neighbours; these lemmas tie every such count to the
 * set of unordered pairs, so the count does not depend on the listing.
 */
module Fills {
  import opened Seqs
  import opened Graphs

  /** The unordered pairs of distinct members of `s` that are not adjacent in `g`. */
  ghost function FillPairs<V>(g: Graph<V>, s: set<V>): set<set<V>> {
    set a, b | a in s && b in s && a != b && !g.Adjacent(a, b) :: {a, b}
  }

  /** The fill of `v`: how many edges eliminating it would add. */
  ghost function Fill<V>(g: Graph<V>, v: V): nat {
    |FillPairs(g, g.Neighbors(v))|
  }

  /** How many entries of `t`, other than `a` itself, are not adjacent to `a`. */
  function NonAdjacentCount<V(==)>(g: Graph<V>, a: V, t: seq<V>): nat {
    if t == [] then 0
    else NonAdjacentCount(g, a, t[..|t| - 1]) + (if t[|t| - 1] != a && !g.Adjacent(a, t[|t| - 1]) then 1 else 0)
  }

  /** Non-adjacent pairs (s[p], s[q]) with p < q, counted row by row from the front. */
  function UpperPairCount<V(==)>(g: Graph<V>, s: seq<V>): nat {
    if s == [] then 0 else NonAdjacentCount(g, s[0], s[1..]) + UpperPairCount(g, s[1..])
  }

  /** The first `i` rows of `UpperPairCount`. */
  function RowsBefore<V(==)>(g: Graph<V>, s: seq<V>, i: nat): nat
    requires i <= |s|
  {
    if i == 0 then 0 else RowsBefore(g, s, i - 1) + NonAdjacentCount(g, s[i - 1], s[i..])
  }

  /** For every entry of `s`, the non-adjacent entries of `t` other than itself, summed. */
  function RowSum<V(==)>(g: Graph<V>, s: seq<V>, t: seq<V>): nat {
    if s == [] then 0 else RowSum(g, s[..|s| - 1], t) + NonAdjacentCount(g, s[|s| - 1], t)
  }

  /** The pairs joining `a` to the non-adjacent members of `t`. */
  ghost function Star<V>(g: Graph<V>, a: V, t: set<V>): set<set<V>> {
    set b | b in t && b != a && !g.Adjacent(a, b) :: {a, b}
  }

  /** Each non-adjacent entry of a duplicate-free listing gives one pair with `a`. */
  lemma {:induction false} StarCount<V>(g: Graph<V>, a: V, t: seq<V>)
    requires NoDups(t)
    ensures |Star(g, a, set b | b in t)| == NonAdjacentCount(g, a, t)
    decreases |t|
  {
    if t != [] {
      var u := t[..|t| - 1];
      var z := t[|t| - 1];
      NoDupsDropLast(t);
      StarCount(g, a, u);
      var su := set b | b in u;
      assert (set b | b in t) == su + {z} by {
        assert t == u + [z];
      }
      StarAdd(g, a, su, z);
    }
  }

  /** Adding a new member `z` adds the pair {a, z} exactly when `z` is another vertex not adjacent to `a`. */
  lemma StarAdd<V>(g: Graph<V>, a: V, s: set<V>, z: V)
    requires z !in s
    ensures |Star(g, a, s + {z})| == |Star(g, a, s)| + (if z != a && !g.Adjacent(a, z) then 1 else 0)
  {
    if z != a && !g.Adjacent(a, z) {
      assert Star(g, a, s + {z}) == Star(g, a, s) + {{a, z}};
      assert {a, z} !in Star(g, a, s);
    } else {
      assert Star(g, a, s + {z}) == Star(g, a, s);
    }
  }

  /** Taking `x` out of `s` splits off its row of pairs. */
  lemma FillPairsSplit<V>(g: Graph<V>, s: set<V>, x: V)
    requires x in s
    ensures FillPairs(g, s) == Star(g, x, s - {x}) + FillPairs(g, s - {x})
    ensures Star(g, x, s - {x}) !! FillPairs(g, s - {x})
  {
    var rest := s - {x};
    forall p | p in FillPairs(g, s)
      ensures p in Star(g, x, rest) + FillPairs(g, rest)
    {
      var a, b :| a in s && b in s && a != b && !g.Adjacent(a, b) && p == {a, b};
      if a == x {
        assert p in Star(g, x, rest);
      } else if b == x {
        assert p == {x, a};
        assert p in Star(g, x, rest);
      } else {
        assert p in FillPairs(g, rest);
      }
    }
    forall p | p in Star(g, x, rest) ensures p !in FillPairs(g, rest) {
      assert x in p;
    }
  }

  /** Removing the first entry of a duplicate-free listing splits off its row of pairs. */
  lemma FillPairsFront<V>(g: Graph<V>, s: seq<V>)
    requires |s| > 0 && NoDups(s)
    ensures FillPairs(g, set b | b in s) == Star(g, s[0], set b | b in s[1..]) + FillPairs(g, set b | b in s[1..])
    ensures Star(g, s[0], set b | b in s[1..]) !! FillPairs(g, set b | b in s[1..])
  {
    var x := s[0];
    var rest := set b | b in s[1..];
    assert (set b | b in s) == {x} + rest by {
      assert s == [x] + s[1..];
    }
    assert x !in rest by {
      forall i | 0 <= i < |s[1..]| ensures s[1..][i] != x {
        assert s[1..][i] == s[i + 1];
      }
    }
    assert ({x} + rest) - {x} == rest;
    FillPairsSplit(g, {x} + rest, x);
  }

  /** The row-by-row count over any duplicate-free listing of `s` is the number of fill pairs of `s`. */
  lemma {:induction false} UpperPairCountIsFill<V>(g: Graph<V>, s: seq<V>)
    requires NoDups(s)
    ensures UpperPairCount(g, s) == |FillPairs(g, set b | b in s)|
    decreases |s|
  {
    if s == [] {
      assert (set b | b in s) == {};
    } else {
      assert NoDups(s[1..]) by {
        forall i, j | 0 <= i < j < |s[1..]| ensures s[1..][i] != s[1..][j] {
          assert s[1..][i] == s[i + 1] && s[1..][j] == s[j + 1];
        }
      }
      UpperPairCountIsFill(g, s[1..]);
      StarCount(g, s[0], s[1..]);
      FillPairsFront(g, s);
    }
  }

  /** The first `i` rows plus the count over the rest make the whole count. */
  lemma {:induction false} RowsBeforeSplit<V>(g: Graph<V>, s: seq<V>, i: nat)
    requires i <= |s|
    ensures RowsBefore(g, s, i) + UpperPairCount(g, s[i..]) == UpperPairCount(g, s)
  {
    if i > 0 {
      RowsBeforeSplit(g, s, i - 1);
      assert s[i - 1..][1..] == s[i..];
    }
  }

  /** The neighbour-pair count of the listed neighbours of `v` is its fill. */
  lemma FillOfListing<V>(g: Graph<V>, v: V, ns: seq<V>)
    requires Lists(ns, g.Neighbors(v))
    ensures RowsBefore(g, ns, |ns|) == Fill(g, v)
  {
    RowsBeforeSplit(g, ns, |ns|);
    assert ns[|ns|..] == [];
    UpperPairCountIsFill(g, ns);
    assert (set b | b in ns) == g.Neighbors(v);
  }

  lemma {:induction false} NonAdjacentCountAppend<V>(g: Graph<V>, a: V, t: seq<V>, u: seq<V>)
    ensures NonAdjacentCount(g, a, t + u) == NonAdjacentCount(g, a, t) + NonAdjacentCount(g, a, u)
    decreases |u|
  {
    if u != [] {
      var u' := u[..|u| - 1];
      assert (t + u)[..|t + u| - 1] == t + u';
      NonAdjacentCountAppend(g, a, t, u');
    } else {
      assert t + u == t;
    }
  }

  lemma {:induction false} RowSumAppend<V>(g: Graph<V>, s: seq<V>, t: seq<V>, u: seq<V>)
    ensures RowSum(g, s, t + u) == RowSum(g, s, t) + RowSum(g, s, u)
    decreases |s|
  {
    if s != [] {
      RowSumAppend(g, s[..|s| - 1], t, u);
      NonAdjacentCountAppend(g, s[|s| - 1], t, u);
    }
  }

  /** Counting `x` against every entry equals counting every entry against `x`. */
  lemma {:induction false} RowSumSingle<V>(g: Graph<V>, s: seq<V>, x: V)
    ensures RowSum(g, s, [x]) == NonAdjacentCount(g, x, s)
    decreases |s|
  {
    if s != [] {
      var y := s[|s| - 1];
      RowSumSingle(g, s[..|s| - 1], x);
      assert [x][..0] == [];
      assert NonAdjacentCount(g, y, [x]) == if x != y && !g.Adjacent(y, x) then 1 else 0;
    }
  }

  /** Summing every entry's non-adjacent count counts every pair twice. */
  lemma {:induction false} RowSumTwice<V>(g: Graph<V>, s: seq<V>)
    requires NoDups(s)
    ensures RowSum(g, s, s) == 2 * UpperPairCount(g, s)
    decreases |s|
  {
    if s != [] {
      var x := s[0];
      var r := s[1..];
      assert NoDups(r) by {
        forall i, j | 0 <= i < j < |r| ensures r[i] != r[j] {
          assert r[i] == s[i + 1] && r[j] == s[j + 1];
        }
      }
      RowSumTwice(g, r);
      assert s == [x] + r;
      RowSumFront(g, x, r, s);
      RowSumAppend(g, r, [x], r);
      RowSumSingle(g, r, x);
      NonAdjacentCountAppend(g, x, [x], r);
      assert [x][..0] == [];
    }
  }

  /** Splitting the front entry off the first argument of `RowSum`. */
  lemma {:induction false} RowSumFront<V>(g: Graph<V>, x: V, r: seq<V>, t: seq<V>)
    ensures RowSum(g, [x] + r, t) == NonAdjacentCount(g, x, t) + RowSum(g, r, t)
    decreases |r|
  {
    if r == [] {
      assert [x] + r == [x];
      assert [x][..0] == [];
    } else {
      var r' := r[..|r| - 1];
      assert ([x] + r)[..|[x] + r| - 1] == [x] + r';
      RowSumFront(g, x, r', t);
    }
  }
}
