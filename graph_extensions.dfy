/**
 * The elimination-game primitive and the small graph helpers the rest of the
 * program is written against.
 */
module GraphExtensions {
  import opened Seqs
  import opened Graphs
  import opened Util

  /**
   * Fill edges of the elimination step against `h` (the graph without the
   * eliminated vertex): each pair ns[i], ns[j] with i < j that is not
   * already adjacent, oriented as it is added.
   */
  function FillEdges<V>(h: Graph<V>, ns: seq<V>): set<(V, V)> {
    set i, j | 0 <= i < j < |ns| && !h.Adjacent(ns[i], ns[j]) :: (ns[i], ns[j])
  }

  /** The graph after one elimination-game step on `x` with the neighbour list `ns`. */
  function Eliminated<V>(g: Graph<V>, x: V, ns: seq<V>): Graph<V> {
    var h := g.RemoveVertex(x);
    Graph(h.vertices, h.edges + FillEdges(h, ns))
  }

  /** What an elimination step needs of its neighbour list: distinct vertices other than `x`. */
  predicate NeighborListFor<V>(g: Graph<V>, x: V, ns: seq<V>) {
    NoDups(ns) && (forall u | u in ns :: u in g.vertices && u != x)
  }

  /** The fill pairs processed before position (i, j) of the nested loop. */
  function FillBefore<V>(h: Graph<V>, ns: seq<V>, i: int, j: int): set<(V, V)> {
    set a, b | 0 <= a < b < |ns| && (a < i || (a == i && b < j)) && !h.Adjacent(ns[a], ns[b]) :: (ns[a], ns[b])
  }

  lemma FillBeforeAvoids<V>(h: Graph<V>, ns: seq<V>, i: int, j: int)
    requires NoDups(ns) && 0 <= i < j < |ns|
    ensures (ns[i], ns[j]) !in FillBefore(h, ns, i, j)
    ensures (ns[j], ns[i]) !in FillBefore(h, ns, i, j)
  {
  }

  lemma FillBeforeStep<V>(h: Graph<V>, ns: seq<V>, i: int, j: int)
    requires 0 <= i < j < |ns|
    ensures FillBefore(h, ns, i, j + 1)
         == FillBefore(h, ns, i, j) + (if h.Adjacent(ns[i], ns[j]) then {} else {(ns[i], ns[j])})
  {
  }

  /**
   * Visiting pair (i, j) with the fill so far in place: the pair is adjacent
   * exactly when it was before the fill, and adding it when it is not gives
   * the fill up to the next pair.
   */
  lemma FillPairStep<V>(h: Graph<V>, ns: seq<V>, i: int, j: int, e: set<(V, V)>)
    requires NoDups(ns) && 0 <= i < j < |ns| && e == h.edges + FillBefore(h, ns, i, j)
    ensures Graph(h.vertices, e).Adjacent(ns[i], ns[j]) == h.Adjacent(ns[i], ns[j])
    ensures (if h.Adjacent(ns[i], ns[j]) then e else e + {(ns[i], ns[j])}) == h.edges + FillBefore(h, ns, i, j + 1)
  {
    FillBeforeAvoids(h, ns, i, j);
    FillBeforeStep(h, ns, i, j);
  }

  lemma FillBeforeRow<V>(h: Graph<V>, ns: seq<V>, i: int)
    requires 0 <= i < |ns|
    ensures FillBefore(h, ns, i, |ns|) == FillBefore(h, ns, i + 1, i + 2)
  {
  }

  lemma FillBeforeAll<V>(h: Graph<V>, ns: seq<V>)
    ensures FillBefore(h, ns, |ns|, |ns| + 1) == FillEdges(h, ns)
    ensures FillBefore(h, ns, 0, 1) == {}
  {
  }

  /**
   * Eliminates `x` with a pre-captured neighbour list: removes `x`, then joins
   * every pair of listed vertices that is not yet adjacent.
   */
  method EliminateVertexWith<V>(g: SimpleGraph<V>, x: V, ns: seq<V>)
    requires NeighborListFor(g.Value(), x, ns)
    modifies g
    ensures g.Value() == Eliminated(old(g.Value()), x, ns)
    ensures old(g.Valid()) ==> g.Valid()
  {
    ghost var h := g.Value().RemoveVertex(x);
    var _ := g.RemoveVertex(x);
    FillBeforeAll(h, ns);
    var i := 0;
    while i < |ns|
      invariant 0 <= i <= |ns|
      invariant g.Value() == Graph(h.vertices, h.edges + FillBefore(h, ns, i, i + 1))
      invariant old(g.Valid()) ==> g.Valid()
    {
      var u := ns[i];
      var j := i + 1;
      while j < |ns|
        invariant i + 1 <= j <= |ns|
        invariant g.Value() == Graph(h.vertices, h.edges + FillBefore(h, ns, i, j))
        invariant old(g.Valid()) ==> g.Valid()
      {
        var v := ns[j];
        FillPairStep(h, ns, i, j, g.edges);
        if !g.ContainsEdge(u, v) {
          var _ := g.AddEdge(u, v);
        }
        j := j + 1;
      }
      FillBeforeRow(h, ns, i);
      i := i + 1;
    }
  }

  /** Eliminates `x` with its current neighbour list. */
  method EliminateVertex<V>(g: SimpleGraph<V>, x: V) returns (ghost ns: seq<V>)
    requires g.Valid() && x in g.vertices
    modifies g
    ensures Lists(ns, old(g.Value()).Neighbors(x))
    ensures g.Value() == Eliminated(old(g.Value()), x, ns)
    ensures g.Valid()
  {
    var list := g.NeighborListOf(x);
    ns := list;
    assert NeighborListFor(g.Value(), x, ns) by {
      forall u | u in ns ensures u in g.vertices && u != x {
        NeighborsBound(g.Value(), x);
      }
    }
    EliminateVertexWith(g, x, list);
  }

  /**
   * After the step, two vertices are adjacent exactly when neither is `x` and
   * they were adjacent before or are two distinct listed neighbours.
   */
  lemma {:induction false} EliminatedAdjacent<V>(g: Graph<V>, x: V, ns: seq<V>, a: V, b: V)
    requires NoDups(ns) && x !in ns
    ensures Eliminated(g, x, ns).Adjacent(a, b)
        <==> a != x && b != x && (g.Adjacent(a, b) || (a in ns && b in ns && a != b))
  {
    var h := g.RemoveVertex(x);
    var e := Eliminated(g, x, ns);
    if e.Adjacent(a, b) {
      if !h.Adjacent(a, b) {
        var p, q :| 0 <= p < q < |ns| && ((ns[p], ns[q]) == (a, b) || (ns[p], ns[q]) == (b, a));
        assert a in ns && b in ns && a != b;
        if (a, b) in h.edges + FillEdges(h, ns) {
          assert (a, b) in FillEdges(h, ns);
        }
      }
    }
    if a != x && b != x && (g.Adjacent(a, b) || (a in ns && b in ns && a != b)) {
      if g.Adjacent(a, b) {
        assert h.Adjacent(a, b);
      } else {
        var p :| 0 <= p < |ns| && ns[p] == a;
        var q :| 0 <= q < |ns| && ns[q] == b;
        if p < q {
          assert (ns[p], ns[q]) in FillEdges(h, ns);
        } else {
          assert (ns[q], ns[p]) in FillEdges(h, ns);
        }
      }
    }
  }

  /** The step keeps the graph simple when its list names distinct vertices other than `x`. */
  lemma EliminatedIsSimple<V>(g: Graph<V>, x: V, ns: seq<V>)
    requires g.IsSimple() && NeighborListFor(g, x, ns)
    ensures Eliminated(g, x, ns).IsSimple()
  {
    var h := g.RemoveVertex(x);
    RemoveVertexNeighbors(g, x, x);
    forall e | e in FillEdges(h, ns)
      ensures e.0 != e.1 && e.0 in h.vertices && e.1 in h.vertices
      ensures (e.1, e.0) !in h.edges + FillEdges(h, ns)
    {
      var i, j :| 0 <= i < j < |ns| && !h.Adjacent(ns[i], ns[j]) && e == (ns[i], ns[j]);
      assert ns[i] in ns && ns[j] in ns;
    }
  }

  /** Afterwards `x` is gone, no edge touches it, and every pair of listed neighbours is adjacent. */
  lemma EliminatedRemovesAndCloses<V>(g: Graph<V>, x: V, ns: seq<V>)
    requires NoDups(ns) && x !in ns
    ensures Eliminated(g, x, ns).vertices == g.vertices - {x}
    ensures forall e | e in Eliminated(g, x, ns).edges :: e.0 != x && e.1 != x
    ensures forall i, j | 0 <= i < |ns| && 0 <= j < |ns| && i != j ::
              Eliminated(g, x, ns).Adjacent(ns[i], ns[j])
  {
    forall i, j | 0 <= i < |ns| && 0 <= j < |ns| && i != j
      ensures Eliminated(g, x, ns).Adjacent(ns[i], ns[j])
    {
      EliminatedAdjacent(g, x, ns, ns[i], ns[j]);
    }
  }

  /**
   * Nothing else changes: every edge not incident to `x` survives, and every
   * edge that is new joins two listed neighbours (ns[i], ns[j]) with i < j.
   */
  lemma EliminatedFrame<V>(g: Graph<V>, x: V, ns: seq<V>)
    ensures forall e | e in g.edges && e.0 != x && e.1 != x :: e in Eliminated(g, x, ns).edges
    ensures forall e | e in Eliminated(g, x, ns).edges && e !in g.edges ::
              exists i, j :: 0 <= i < j < |ns| && e == (ns[i], ns[j])
  {
  }

  /** With an already complete neighbourhood the step only removes `x`. */
  lemma {:induction false} EliminatedClique<V>(g: Graph<V>, x: V, ns: seq<V>)
    requires NoDups(ns) && x !in ns
    requires g.IsClique(set u | u in ns)
    ensures Eliminated(g, x, ns) == g.RemoveVertex(x)
  {
    var h := g.RemoveVertex(x);
    forall i, j | 0 <= i < j < |ns| ensures h.Adjacent(ns[i], ns[j]) {
      assert g.Adjacent(ns[i], ns[j]);
    }
    assert FillEdges(h, ns) == {};
  }

  /**
   * Neighbourhoods after the step: a listed neighbour u loses `x` and gains the
   * other listed neighbours; every other vertex only loses `x`.
   */
  lemma EliminatedNeighbors<V>(g: Graph<V>, x: V, ns: seq<V>, u: V)
    requires g.IsSimple() && NeighborListFor(g, x, ns) && u != x
    ensures Eliminated(g, x, ns).Neighbors(u)
         == if u in ns then (g.Neighbors(u) - {x}) + ((set w | w in ns) - {u}) else g.Neighbors(u) - {x}
  {
    var e := Eliminated(g, x, ns);
    forall w ensures w in e.Neighbors(u) <==> w in (if u in ns then (g.Neighbors(u) - {x}) + ((set w | w in ns) - {u}) else g.Neighbors(u) - {x}) {
      EliminatedAdjacent(g, x, ns, u, w);
    }
  }

  /** The graph's shallow copy: a distinct graph object with the same vertices and edges. */
  method ShallowCopy<V>(g: SimpleGraph<V>) returns (c: SimpleGraph<V>)
    requires g.Valid()
    ensures fresh(c) && c.Valid() && c.Value() == g.Value()
  {
    c := g.Clone();
  }

  /** Each edge as a (source, target) vector. */
  function EdgeVectorSet<V>(g: Graph<V>): set<Vector2<V>> {
    set e | e in g.edges :: Vector2(e.0, e.1)
  }

  /**
   * The vector set has one vector per edge: a vector is present exactly when
   * its orientation is a stored edge, so every adjacent pair appears in one
   * orientation and never in both.
   */
  lemma {:induction false} EdgeVectorSetExact<V>(g: Graph<V>)
    requires g.IsSimple()
    ensures forall u, v :: Vector2(u, v) in EdgeVectorSet(g) <==> (u, v) in g.edges
    ensures forall u, v :: g.Adjacent(u, v) <==> (Vector2(u, v) in EdgeVectorSet(g) || Vector2(v, u) in EdgeVectorSet(g))
    ensures forall u, v :: !(Vector2(u, v) in EdgeVectorSet(g) && Vector2(v, u) in EdgeVectorSet(g))
    ensures |EdgeVectorSet(g)| == |g.edges|
  {
    VectorImageSize(g.edges);
  }

  lemma {:induction false} VectorImageSize<V>(es: set<(V, V)>)
    ensures |set e | e in es :: Vector2(e.0, e.1)| == |es|
  {
    if es != {} {
      var e :| e in es;
      VectorImageSize(es - {e});
      assert (set f | f in es :: Vector2(f.0, f.1))
          == (set f | f in es - {e} :: Vector2(f.0, f.1)) + {Vector2(e.0, e.1)};
    }
  }

  /** Two graph values with the same vertices and the same adjacency, whatever the orientation of their edges. */
  ghost predicate Same<V>(g1: Graph<V>, g2: Graph<V>) {
    && g1.vertices == g2.vertices
    && (forall e | e in g1.edges :: g2.Adjacent(e.0, e.1))
    && (forall e | e in g2.edges :: g1.Adjacent(e.0, e.1))
  }

  /** `Same` is exactly equal vertices and equal adjacency. */
  lemma SameAdjacent<V>(g1: Graph<V>, g2: Graph<V>)
    requires Same(g1, g2)
    ensures forall a, b :: g1.Adjacent(a, b) <==> g2.Adjacent(a, b)
  {
    forall a, b ensures g1.Adjacent(a, b) ==> g2.Adjacent(a, b) {
      if (a, b) in g1.edges {
        assert g2.Adjacent(a, b);
      } else if (b, a) in g1.edges {
        assert g2.Adjacent(b, a);
      }
    }
    forall a, b ensures g2.Adjacent(a, b) ==> g1.Adjacent(a, b) {
      if (a, b) in g2.edges {
        assert g1.Adjacent(a, b);
      } else if (b, a) in g2.edges {
        assert g1.Adjacent(b, a);
      }
    }
  }

  lemma SameTrans<V>(g1: Graph<V>, g2: Graph<V>, g3: Graph<V>)
    requires Same(g1, g2) && Same(g2, g3)
    ensures Same(g1, g3)
  {
    SameAdjacent(g1, g2);
    SameAdjacent(g2, g3);
  }

  /** Graphs with the same adjacency have the same neighbourhoods and degrees. */
  lemma SameNeighbors<V>(g1: Graph<V>, g2: Graph<V>, v: V)
    requires Same(g1, g2)
    ensures g1.Neighbors(v) == g2.Neighbors(v) && g1.Degree(v) == g2.Degree(v)
  {
    SameAdjacent(g1, g2);
  }

  /** The elimination step on `x` with a fixed listing of its neighbours, for specifications. */
  ghost function EliminateStep<V>(g: Graph<V>, x: V): Graph<V> {
    Eliminated(g, x, Listing(g.Neighbors(x)))
  }

  /**
   * Only the orientation of the fill edges depends on the listing: any step
   * on `x` with any listing of its neighbours, on a graph with the same
   * adjacency, gives the adjacency of `EliminateStep`, and keeps it simple.
   */
  lemma SameEliminated<V>(g1: Graph<V>, g2: Graph<V>, x: V, ns: seq<V>)
    requires g1.IsSimple() && g2.IsSimple() && Same(g1, g2) && Lists(ns, g1.Neighbors(x))
    ensures Same(Eliminated(g1, x, ns), EliminateStep(g2, x))
    ensures Eliminated(g1, x, ns).IsSimple() && EliminateStep(g2, x).IsSimple()
  {
    var ms := Listing(g2.Neighbors(x));
    SameNeighbors(g1, g2, x);
    assert x !in g1.Neighbors(x);
    SameAdjacent(g1, g2);
    var e1, e2 := Eliminated(g1, x, ns), Eliminated(g2, x, ms);
    forall e | e in e1.edges ensures e2.Adjacent(e.0, e.1) {
      EliminatedAdjacent(g1, x, ns, e.0, e.1);
      EliminatedAdjacent(g2, x, ms, e.0, e.1);
    }
    forall e | e in e2.edges ensures e1.Adjacent(e.0, e.1) {
      EliminatedAdjacent(g1, x, ns, e.0, e.1);
      EliminatedAdjacent(g2, x, ms, e.0, e.1);
    }
    EliminatedIsSimple(g1, x, ns);
    EliminatedIsSimple(g2, x, ms);
  }

  /** Removing the same vertex from graphs with the same adjacency keeps them so. */
  lemma SameRemoved<V>(g1: Graph<V>, g2: Graph<V>, x: V)
    requires Same(g1, g2)
    ensures Same(g1.RemoveVertex(x), g2.RemoveVertex(x))
  {
    SameAdjacent(g1, g2);
  }
}
