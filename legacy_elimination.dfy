/**
 * The shared pieces of the one-shot heuristics: their own copy of the
 * elimination step, the degree-keyed queue they start from, and the
 * replay facts their destructive runs are stated with.
 */
module LegacyElimination {
  import opened Seqs
  import opened Graphs
  import opened GraphExtensions
  import opened Fills
  import opened Replays

  /**
   * The elimination step of the one-shot heuristics: removes `x` with its
   * edges, then joins every two former neighbours that are not adjacent.
   * Nothing else is removed, every added edge joins two former neighbours
   * that were not adjacent, so no edge is added twice.
   */
  method Eliminate<V>(g: SimpleGraph<V>, x: V) returns (ghost ns: seq<V>)
    requires g.Valid() && x in g.vertices
    modifies g
    ensures g.Valid() && g.vertices == old(g.vertices) - {x}
    ensures Lists(ns, old(g.Value()).Neighbors(x)) && g.Value() == Eliminated(old(g.Value()), x, ns)
    ensures forall e | e in g.edges :: e.0 != x && e.1 != x
    ensures forall a, b | a in old(g.Value()).Neighbors(x) && b in old(g.Value()).Neighbors(x) && a != b ::
              g.Value().Adjacent(a, b)
    ensures forall e | e in old(g.edges) && e.0 != x && e.1 != x :: e in g.edges
    ensures forall e | e in g.edges && e !in old(g.edges) ::
              && e.0 in old(g.Value()).Neighbors(x) && e.1 in old(g.Value()).Neighbors(x)
              && !old(g.Value()).Adjacent(e.0, e.1)
  {
    ghost var g0 := g.Value();
    ns := EliminateVertex(g, x);
    NeighborsBound(g0, x);
    forall a, b | a in g0.Neighbors(x) && b in g0.Neighbors(x) && a != b
      ensures g.Value().Adjacent(a, b)
    {
      EliminatedAdjacent(g0, x, ns, a, b);
    }
    forall e | e in g.edges && e !in g0.edges
      ensures e.0 in g0.Neighbors(x) && e.1 in g0.Neighbors(x) && !g0.Adjacent(e.0, e.1)
    {
      var i, j :| 0 <= i < j < |ns| && !g0.RemoveVertex(x).Adjacent(ns[i], ns[j]) && e == (ns[i], ns[j]);
      assert ns[i] in ns && ns[j] in ns;
    }
  }

  /** A simple graph without vertices has no edges. */
  lemma NoVerticesNoEdges<V>(g: Graph<V>)
    requires g.IsSimple() && g.vertices == {}
    ensures g.edges == {}
  {
  }

  /** A queue holding every vertex once, keyed by its current degree. */
  method QueueByDegree<V>(g: SimpleGraph<V>) returns (heap: map<V, int>)
    ensures heap == map v | v in g.vertices :: g.Value().Degree(v)
  {
    var vs := g.VertexList();
    heap := map[];
    var k := 0;
    while k < |vs|
      invariant 0 <= k <= |vs|
      invariant heap == map v | v in vs[..k] :: g.Value().Degree(v)
    {
      var v := vs[k];
      heap := heap[v := g.DegreeOf(v)];
      assert vs[..k + 1] == vs[..k] + [v];
      k := k + 1;
    }
    assert vs[..k] == vs;
  }

  /** Some vertex of `h` is adjacent to every other vertex of `h`. */
  ghost predicate HasUniversal<V>(h: Graph<V>) {
    exists u | u in h.vertices :: h.Degree(u) == |h.vertices| - 1
  }

  /**
   * The working graph `c` of a run that has so far eliminated the vertices
   * of `o` in turn from `g0`, with fill edges: the replay of `o` succeeds,
   * `o` lists exactly the vertices gone, and `c` has the adjacency of the
   * replayed graph.
   */
  ghost predicate Replayed<V>(g0: Graph<V>, c: Graph<V>, o: seq<V>) {
    && g0.IsSimple() && c.IsSimple()
    && c.vertices <= g0.vertices
    && Lists(o, g0.vertices - c.vertices)
    && Width(g0, o, true).Some?
    && Same(c, After(g0, o, true))
  }

  /** Nothing is eliminated yet. */
  lemma ReplayedStart<V>(g0: Graph<V>)
    requires g0.IsSimple()
    ensures Replayed(g0, g0, [])
  {
    assert g0.vertices - g0.vertices == {};
  }

  /**
   * Eliminating a vertex `v` of the working graph extends the replay by `v`:
   * its degree and fill at its turn are those in the working graph.
   */
  lemma ReplayedStep<V>(g0: Graph<V>, c: Graph<V>, o: seq<V>, v: V, ns: seq<V>)
    requires Replayed(g0, c, o) && v in c.vertices && Lists(ns, c.Neighbors(v))
    ensures Replayed(g0, Eliminated(c, v, ns), o + [v])
    ensures After(g0, o, true).Degree(v) == c.Degree(v)
    ensures Fill(After(g0, o, true), v) == Fill(c, v)
    ensures |After(g0, o, true).vertices| == |c.vertices|
  {
    var a := After(g0, o, true);
    var c1 := Eliminated(c, v, ns);
    AfterFacts(g0, o, true);
    SameEliminated(c, c, v, ns);
    StepFacts(c, v, true);
    WidthStep(g0, o, v, true, Width(g0, o, true).value, c, c1);
    SameNeighbors(c, a, v);
    SameFill(c, a, v);
    HandOut(o, g0.vertices, c.vertices, v);
  }

  /** Graphs with the same adjacency give every vertex the same fill. */
  lemma SameFill<V>(g1: Graph<V>, g2: Graph<V>, v: V)
    requires Same(g1, g2)
    ensures Fill(g1, v) == Fill(g2, v)
  {
    SameAdjacent(g1, g2);
    SameNeighbors(g1, g2, v);
    assert FillPairs(g1, g1.Neighbors(v)) == FillPairs(g2, g2.Neighbors(v));
  }

  /** Listing one more vertex `v` of those left. */
  lemma HandOut<V>(o: seq<V>, all: set<V>, left: set<V>, v: V)
    requires left <= all && v in left && Lists(o, all - left)
    ensures Lists(o + [v], all - (left - {v}))
  {
    ListsSnoc(o, all - left, v);
    assert (all - left) + {v} == all - (left - {v});
  }

  /** Listing the vertices left as a batch completes the listing of all vertices. */
  lemma HandOutRest<V>(o: seq<V>, all: set<V>, left: set<V>, batch: seq<V>)
    requires left <= all && Lists(o, all - left) && Lists(batch, left)
    ensures Lists(o + batch, all)
  {
    ListsConcat(o, all - left, batch, left);
    assert (all - left) + left == all;
  }

  /** When one vertex `v` is left, handing it out completes the listing, and one vertex is left in the replay. */
  lemma LastLeft<V>(g0: Graph<V>, c: Graph<V>, o: seq<V>, v: V)
    requires Replayed(g0, c, o) && c.vertices == {v}
    ensures Lists(o + [v], g0.vertices) && |After(g0, o, true).vertices| == 1
  {
    HandOutRest(o, g0.vertices, c.vertices, [v]);
  }

  /** A vertex adjacent to all others in the working graph is so in the replayed graph. */
  lemma UniversalLeft<V>(g0: Graph<V>, c: Graph<V>, o: seq<V>, v: V)
    requires Replayed(g0, c, o) && v in c.vertices && c.Degree(v) == |c.vertices| - 1
    ensures HasUniversal(After(g0, o, true))
  {
    SameNeighbors(c, After(g0, o, true), v);
  }

  /** At every turn of `o`, the vertex handed out was not adjacent to all other vertices left. */
  ghost predicate NeverUniversal<V>(g0: Graph<V>, o: seq<V>) {
    forall i | 0 <= i < |o| :: NotUniversalAt(g0, o[..i], o[i])
  }

  /** After eliminating `before`, the vertex `x` is not adjacent to all other vertices left. */
  ghost predicate NotUniversalAt<V>(g0: Graph<V>, before: seq<V>, x: V) {
    After(g0, before, true).Degree(x) < |After(g0, before, true).vertices| - 1
  }

  /** At every turn of `o`, the vertex handed out had fill 0 and was not adjacent to all other vertices left. */
  ghost predicate Simplicial<V>(g0: Graph<V>, o: seq<V>) {
    && NeverUniversal(g0, o)
    && forall i | 0 <= i < |o| :: Fill(After(g0, o[..i], true), o[i]) == 0
  }

  lemma NeverUniversalSnoc<V>(g0: Graph<V>, o: seq<V>, v: V)
    requires NeverUniversal(g0, o)
    requires After(g0, o, true).Degree(v) < |After(g0, o, true).vertices| - 1
    ensures NeverUniversal(g0, o + [v])
  {
    var o' := o + [v];
    forall i | 0 <= i < |o'|
      ensures NotUniversalAt(g0, o'[..i], o'[i])
    {
      if i < |o| {
        assert o'[..i] == o[..i] && o'[i] == o[i];
      } else {
        assert o'[..i] == o;
      }
    }
  }

  lemma SimplicialSnoc<V>(g0: Graph<V>, o: seq<V>, v: V)
    requires Simplicial(g0, o)
    requires After(g0, o, true).Degree(v) < |After(g0, o, true).vertices| - 1
    requires Fill(After(g0, o, true), v) == 0
    ensures Simplicial(g0, o + [v])
  {
    NeverUniversalSnoc(g0, o, v);
    var o' := o + [v];
    forall i | 0 <= i < |o'| ensures Fill(After(g0, o'[..i], true), o'[i]) == 0 {
      if i < |o| {
        assert o'[..i] == o[..i] && o'[i] == o[i];
      } else {
        assert o'[..i] == o;
      }
    }
  }
}
