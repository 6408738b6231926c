/**
 * Replaying an elimination ordering on a graph: the width of an ordering is
 * the most neighbours a vertex has when its turn comes.  Eliminating with
 * fill edges is the elimination game; eliminating by plain removal is what
 * the maximum-cardinality heuristic does to its working graph.
 */
module Replays {
  import opened Wrappers
  import opened Seqs
  import opened Graphs
  import opened GraphExtensions

  function Max(a: int, b: int): int {
    if a >= b then a else b
  }

  /** One elimination: with fill edges when `fill`, by plain removal otherwise. */
  ghost function Step<V>(g: Graph<V>, x: V, fill: bool): Graph<V> {
    if fill then EliminateStep(g, x) else g.RemoveVertex(x)
  }

  /** The graph left after eliminating the vertices of `o` in turn. */
  ghost function After<V>(g: Graph<V>, o: seq<V>, fill: bool): Graph<V>
    decreases |o|
  {
    if o == [] then g else Step(After(g, o[..|o| - 1], fill), o[|o| - 1], fill)
  }

  /**
   * The width of eliminating the vertices of `o` in turn: the largest number
   * of neighbours a vertex has when its turn comes, 0 for the empty ordering,
   * and nothing when a vertex is not in the graph at its turn.
   */
  ghost function Width<V>(g: Graph<V>, o: seq<V>, fill: bool): Option<nat>
    decreases |o|
  {
    if o == [] then Some(0)
    else
      match Width(g, o[..|o| - 1], fill)
      case None => None
      case Some(w) =>
        var h := After(g, o[..|o| - 1], fill);
        var x := o[|o| - 1];
        if x in h.vertices then Some(Max(w, h.Degree(x))) else None
  }

  /** Each elimination removes exactly its vertex and keeps the graph simple. */
  lemma StepFacts<V>(g: Graph<V>, x: V, fill: bool)
    requires g.IsSimple()
    ensures Step(g, x, fill).vertices == g.vertices - {x}
    ensures Step(g, x, fill).IsSimple()
  {
    if fill {
      SameEliminated(g, g, x, Listing(g.Neighbors(x)));
    } else {
      RemoveVertexNeighbors(g, x, x);
    }
  }

  /** The same elimination on graphs with the same adjacency gives graphs with the same adjacency. */
  lemma SameStep<V>(g1: Graph<V>, g2: Graph<V>, x: V, fill: bool)
    requires g1.IsSimple() && g2.IsSimple() && Same(g1, g2)
    ensures Same(Step(g1, x, fill), Step(g2, x, fill))
  {
    if fill {
      SameEliminated(g1, g2, x, Listing(g1.Neighbors(x)));
    } else {
      SameRemoved(g1, g2, x);
    }
  }

  /** Eliminating in turn leaves the vertices not in the ordering, and a simple graph. */
  lemma {:induction false} AfterFacts<V>(g: Graph<V>, o: seq<V>, fill: bool)
    requires g.IsSimple()
    ensures After(g, o, fill).vertices == g.vertices - (set v | v in o)
    ensures After(g, o, fill).IsSimple()
    decreases |o|
  {
    if o != [] {
      var p := o[..|o| - 1];
      AfterFacts(g, p, fill);
      StepFacts(After(g, p, fill), o[|o| - 1], fill);
      assert (set v | v in o) == (set v | v in p) + {o[|o| - 1]} by {
        assert o == p + [o[|o| - 1]];
      }
    }
  }

  /** The replay succeeds exactly when the ordering names distinct vertices of the graph. */
  lemma {:induction false} WidthDefined<V>(g: Graph<V>, o: seq<V>, fill: bool)
    requires g.IsSimple()
    ensures Width(g, o, fill).Some? <==> NoDups(o) && forall v | v in o :: v in g.vertices
    decreases |o|
  {
    if o != [] {
      var p := o[..|o| - 1];
      var x := o[|o| - 1];
      WidthDefined(g, p, fill);
      AfterFacts(g, p, fill);
      WidthSomeLast(g, o, fill);
      assert o == p + [x];
      if NoDups(o) && forall v | v in o :: v in g.vertices {
        NoDupsDropLast(o);
      }
      if NoDups(p) && (forall v | v in p :: v in g.vertices) && x in g.vertices && x !in p {
        assert NoDups(o) by {
          forall i, j | 0 <= i < j < |o| ensures o[i] != o[j] {
            if j < |p| {
              assert o[i] == p[i] && o[j] == p[j];
            } else {
              assert o[i] == p[i];
            }
          }
        }
      }
    }
  }

  /** A replay succeeds exactly when the replay without its last vertex does and that vertex is still there. */
  lemma WidthSomeLast<V>(g: Graph<V>, o: seq<V>, fill: bool)
    requires o != []
    ensures Width(g, o, fill).Some? <==>
              Width(g, o[..|o| - 1], fill).Some? && o[|o| - 1] in After(g, o[..|o| - 1], fill).vertices
  {
  }

  /** Eliminating `b` after `p` leaves what was left after `p`, without the vertices of `b`. */
  lemma AfterMore<V>(g: Graph<V>, p: seq<V>, b: seq<V>, fill: bool)
    requires g.IsSimple()
    ensures After(g, p + b, fill).vertices == After(g, p, fill).vertices - (set v | v in b)
    ensures After(g, p + b, fill).IsSimple()
  {
    AfterFacts(g, p, fill);
    AfterFacts(g, p + b, fill);
    assert (set v | v in p + b) == (set v | v in p) + (set v | v in b);
  }

  /** A vertex of a simple graph with fewer vertices than `r` has fewer than |r| neighbours. */
  lemma DegreeBelow<V>(h: Graph<V>, r: set<V>, x: V)
    requires h.IsSimple() && x in h.vertices && h.vertices <= r
    ensures h.Degree(x) <= |r| - 1
  {
    NeighborsBound(h, x);
    SubsetCard(h.vertices, r);
  }

  /**
   * Eliminating distinct vertices of the graph left after `p`, in any order,
   * cannot raise the width beyond one less than the number of vertices left.
   */
  lemma {:induction false} WidthBatch<V>(g: Graph<V>, p: seq<V>, b: seq<V>, fill: bool, w: nat)
    requires g.IsSimple() && Width(g, p, fill) == Some(w)
    requires NoDups(b) && forall v | v in b :: v in After(g, p, fill).vertices
    ensures Width(g, p + b, fill).Some?
    ensures w <= Width(g, p + b, fill).value <= Max(w, |After(g, p, fill).vertices| - 1)
    decreases |b|
  {
    if b == [] {
      assert p + b == p;
      assert Width(g, p + b, fill) == Some(w);
    } else {
      var b' := b[..|b| - 1];
      var x := b[|b| - 1];
      NoDupsDropLast(b);
      assert forall v | v in b' :: v in b;
      WidthBatch(g, p, b', fill, w);
      AfterMore(g, p, b', fill);
      var h := After(g, p + b', fill);
      assert x in b;
      DegreeBelow(h, After(g, p, fill).vertices, x);
      var o := p + b;
      assert o[..|o| - 1] == p + b' && o[|o| - 1] == x;
      WidthWithin(g, o, fill, w, |After(g, p, fill).vertices| - 1);
    }
  }

  /**
   * A last vertex still in the graph at its turn, with at most `n`
   * neighbours there, keeps the width between `w` and the larger of `w` and
   * `n` when the width before it was.
   */
  lemma WidthWithin<V>(g: Graph<V>, o: seq<V>, fill: bool, w: nat, n: int)
    requires o != [] && Width(g, o[..|o| - 1], fill).Some?
    requires w <= Width(g, o[..|o| - 1], fill).value <= Max(w, n)
    requires o[|o| - 1] in After(g, o[..|o| - 1], fill).vertices
    requires After(g, o[..|o| - 1], fill).Degree(o[|o| - 1]) <= n
    ensures Width(g, o, fill).Some? && w <= Width(g, o, fill).value <= Max(w, n)
  {
  }

  /** A replay that succeeds names distinct vertices and has width below the number of vertices, or 0. */
  lemma WidthOfListing<V>(g: Graph<V>, o: seq<V>, fill: bool)
    requires g.IsSimple() && Width(g, o, fill).Some?
    ensures NoDups(o) && forall v | v in o :: v in g.vertices
    ensures Width(g, o, fill).value <= Max(0, |g.vertices| - 1)
  {
    WidthDefined(g, o, fill);
    WidthBatch(g, [], o, fill, 0);
    assert [] + o == o;
  }

  /**
   * One more vertex, eliminated in a working graph `c0` with the adjacency
   * of the replayed graph: the width takes in its degree there, and the
   * working graph afterwards has the adjacency of the longer replay.
   */
  lemma WidthStep<V>(g: Graph<V>, o: seq<V>, v: V, fill: bool, w: nat, c0: Graph<V>, c1: Graph<V>)
    requires g.IsSimple() && c0.IsSimple() && Width(g, o, fill) == Some(w)
    requires Same(c0, After(g, o, fill)) && v in c0.vertices
    requires Same(c1, Step(c0, v, fill))
    ensures Width(g, o + [v], fill) == Some(Max(w, c0.Degree(v)))
    ensures Same(c1, After(g, o + [v], fill))
  {
    var a := After(g, o, fill);
    AfterFacts(g, o, fill);
    SameNeighbors(c0, a, v);
    assert (o + [v])[..|o|] == o;
    SameStep(c0, a, v, fill);
    SameTrans(c1, Step(c0, v, fill), Step(a, v, fill));
  }

  /**
   * Once the replayed graph has no vertex left, the ordering lists the
   * vertices and its width is below their number, or 0.
   */
  lemma WidthComplete<V>(g: Graph<V>, o: seq<V>, fill: bool, w: nat)
    requires g.IsSimple() && Width(g, o, fill) == Some(w) && After(g, o, fill).vertices == {}
    ensures Lists(o, g.vertices) && w <= Max(0, |g.vertices| - 1)
  {
    AfterFacts(g, o, fill);
    WidthOfListing(g, o, fill);
    forall x | x in g.vertices ensures x in o {
      assert x !in After(g, o, fill).vertices;
    }
  }

  /**
   * Replaying any listing `b` of the vertices left after `o` completes the
   * ordering, and its width is at most the larger of the width of `o` and
   * one less than the number of vertices left.
   */
  lemma WidthOfBatch<V>(g: Graph<V>, o: seq<V>, b: seq<V>, fill: bool, w: nat)
    requires g.IsSimple() && Width(g, o, fill) == Some(w) && Lists(b, After(g, o, fill).vertices)
    ensures Lists(o + b, g.vertices)
    ensures Width(g, o + b, fill).Some? && Width(g, o + b, fill).value <= Max(w, |After(g, o, fill).vertices| - 1)
    ensures Max(w, |After(g, o, fill).vertices| - 1) <= Max(0, |g.vertices| - 1)
  {
    WidthOfListing(g, o, fill);
    WidthBatch(g, o, b, fill, w);
    AfterFacts(g, o, fill);
    var left := After(g, o, fill).vertices;
    SubsetCard(left, g.vertices);
    assert w <= Max(0, |g.vertices| - 1) && |left| <= |g.vertices|;
    WidthOfListing(g, o + b, fill);
    forall x | x in g.vertices ensures x in o + b {
      if x !in o {
        assert x in left;
      }
    }
  }

  /** Once a vertex is missing at its turn, the replay of any longer ordering fails too. */
  lemma {:induction false} WidthNoneExtends<V>(g: Graph<V>, o: seq<V>, k: nat, fill: bool)
    requires k <= |o| && Width(g, o[..k], fill).None?
    ensures Width(g, o, fill).None?
    decreases |o| - k
  {
    if k < |o| {
      var q := o[..k + 1];
      assert q[..|q| - 1] == o[..k];
      WidthNoneExtends(g, o, k + 1, fill);
    } else {
      assert o[..k] == o;
    }
  }

  /** The replay of a longer ordering: the width so far, or the degree of the last vertex at its turn. */
  lemma WidthSnoc<V>(g: Graph<V>, o: seq<V>, fill: bool)
    requires o != [] && Width(g, o, fill).Some?
    ensures var p := o[..|o| - 1];
            && Width(g, p, fill).Some?
            && Width(g, o, fill).value == Max(Width(g, p, fill).value, After(g, p, fill).Degree(o[|o| - 1]))
  {
  }

  /** No vertex has more neighbours at its turn than the width. */
  lemma {:induction false} TurnWithinWidth<V>(g: Graph<V>, o: seq<V>, fill: bool, w: nat, i: nat)
    requires Width(g, o, fill) == Some(w) && i < |o|
    ensures After(g, o[..i], fill).Degree(o[i]) <= w
    decreases |o|
  {
    var p := o[..|o| - 1];
    WidthSnoc(g, o, fill);
    if i < |o| - 1 {
      TurnWithinWidth(g, p, fill, Width(g, p, fill).value, i);
      assert p[..i] == o[..i] && p[i] == o[i];
    }
  }

  /** Some vertex has as many neighbours at its turn as the width, unless there is no turn and the width is 0. */
  lemma {:induction false} WidthAttained<V>(g: Graph<V>, o: seq<V>, fill: bool, w: nat)
    requires Width(g, o, fill) == Some(w)
    ensures o == [] ==> w == 0
    ensures o != [] ==> exists i | 0 <= i < |o| :: After(g, o[..i], fill).Degree(o[i]) == w
    decreases |o|
  {
    if o != [] {
      var n := |o|;
      var p := o[..n - 1];
      WidthSnoc(g, o, fill);
      var w' := Width(g, p, fill).value;
      if w != After(g, p, fill).Degree(o[n - 1]) {
        WidthAttained(g, p, fill, w');
        var i :| 0 <= i < n - 1 && After(g, p[..i], fill).Degree(p[i]) == w';
        assert p[..i] == o[..i] && p[i] == o[i];
      }
    }
  }
}
