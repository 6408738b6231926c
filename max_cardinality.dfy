/**
 * The maximum-cardinality heuristic: it builds the ordering back to front,
 * each time prepending the remaining vertex with the smallest queued key.
 * The key of a vertex is its current degree minus its degree at
 * construction; vertices are removed without any fill edges, so a fresh key
 * is minus the number of eliminated neighbours.  Keys are refreshed lazily,
 * as in the minimum-degree heuristic: a vertex whose key is stale may be
 * taken although another has more eliminated neighbours.
 */
module MaxCardinality {
  import opened Wrappers
  import opened Seqs
  import opened Graphs
  import opened Heaps
  import opened EliminationResults

  /** `g` is what is left of `original` after removing vertices only. */
  ghost predicate InducedBy<V>(original: Graph<V>, g: Graph<V>) {
    && g.vertices <= original.vertices
    && g.edges == set e | e in original.edges && e.0 in g.vertices && e.1 in g.vertices
  }

  /** How many of the original neighbours of `v` are gone from `g`. */
  ghost function EliminatedNeighbors<V>(original: Graph<V>, g: Graph<V>, v: V): int {
    |original.Neighbors(v) - g.vertices|
  }

  /** In a graph reached by removing vertices only, the drop in degree counts the removed neighbours. */
  lemma InducedDegree<V>(original: Graph<V>, g: Graph<V>, v: V)
    requires InducedBy(original, g) && v in g.vertices
    ensures g.Neighbors(v) == original.Neighbors(v) * g.vertices
    ensures g.Degree(v) - original.Degree(v) == -EliminatedNeighbors(original, g, v)
  {
    var a := original.Neighbors(v);
    assert g.Neighbors(v) == a * g.vertices;
    assert a == (a * g.vertices) + (a - g.vertices);
    assert (a * g.vertices) * (a - g.vertices) == {};
  }

  /** A simple graph is a vertex-removal of itself. */
  lemma InducedSelf<V>(g: Graph<V>)
    requires g.IsSimple()
    ensures InducedBy(g, g)
  {
  }

  /** Removing one more vertex keeps the graph a vertex-removal of the original. */
  lemma InducedRemove<V>(original: Graph<V>, g: Graph<V>, x: V)
    requires InducedBy(original, g)
    ensures InducedBy(original, g.RemoveVertex(x))
  {
  }

  /** Every key is at most 0 and at least the vertex's current degree minus its original degree. */
  ghost predicate KeysBounded<V>(original: Graph<V>, g: Graph<V>, heap: map<V, int>) {
    forall v | v in heap :: g.Degree(v) - original.Degree(v) <= heap[v] <= 0
  }

  /** The key of every queued vertex not marked outdated is its current degree minus its original degree. */
  ghost predicate KeysFresh<V>(original: Graph<V>, g: Graph<V>, heap: map<V, int>, outdated: set<V>) {
    forall v | v in heap && v !in outdated :: heap[v] == g.Degree(v) - original.Degree(v)
  }

  /**
   * The heuristic's state on the working graph `g`: the original degrees of
   * the vertices left, every vertex left and not handed out queued, each key
   * between the vertex's current loss of degree and 0, exactly that loss
   * when it is not marked outdated.
   */
  ghost predicate State<V>(original: Graph<V>, g: Graph<V>, originalDegrees: map<V, int>, heap: map<V, int>, outdated: set<V>, taken: set<V>) {
    && g.IsSimple()
    && InducedBy(original, g)
    && originalDegrees == (map v | v in g.vertices :: original.Degree(v))
    && taken <= g.vertices
    && heap.Keys == g.vertices - taken
    && KeysBounded(original, g, heap)
    && KeysFresh(original, g, heap, outdated)
  }

  /** Re-queueing the outdated vertex `v` under its current loss of degree keeps the state. */
  lemma RequeueState<V>(original: Graph<V>, g: Graph<V>, od: map<V, int>, heap: map<V, int>, outdated: set<V>, taken: set<V>, v: V)
    requires State(original, g, od, heap, outdated, taken) && v in heap
    ensures v in od && od[v] == original.Degree(v)
    ensures State(original, g, od, (heap - {v})[v := g.Degree(v) - od[v]], outdated - {v}, taken)
  {
    RequeueKeys(original, g, heap, outdated, v);
  }

  /**
   * Handing out `v`, the smallest entry and up to date: its key is minus its
   * removed neighbours, key plus original degree is its current degree, and
   * the state is kept with `v` taken.
   */
  lemma TakeState<V>(original: Graph<V>, g: Graph<V>, od: map<V, int>, heap: map<V, int>, outdated: set<V>, taken: set<V>, v: V)
    requires State(original, g, od, heap, outdated, taken) && IsMin(heap, v) && v !in outdated
    ensures v in g.vertices - taken && v in od
    ensures heap[v] + od[v] == g.Degree(v) && heap[v] == -EliminatedNeighbors(original, g, v)
    ensures forall u | u in heap - {v} :: heap[v] <= (heap - {v})[u]
    ensures State(original, g, od, heap - {v}, outdated, taken + {v})
  {
    InducedDegree(original, g, v);
  }

  /**
   * Removing the handed-out vertex `x` without fill edges keeps the state
   * once its current neighbours are marked outdated and its original degree
   * is forgotten: only their degrees change, and only downwards.
   */
  lemma EliminateState<V>(original: Graph<V>, g: Graph<V>, od: map<V, int>, heap: map<V, int>, outdated: set<V>, taken: set<V>, x: V)
    requires State(original, g, od, heap, outdated, taken) && x in taken
    ensures State(original, g.RemoveVertex(x), od - {x}, heap, outdated + g.Neighbors(x), taken - {x})
  {
    var c := g.RemoveVertex(x);
    InducedRemove(original, g, x);
    RemoveVertexNeighbors(g, x, x);
    forall v | v in heap
      ensures c.Degree(v) <= g.Degree(v)
      ensures v !in outdated + g.Neighbors(x) ==> c.Degree(v) == g.Degree(v)
    {
      RemoveVertexNeighbors(g, x, v);
      SubsetCard(c.Neighbors(v), g.Neighbors(v));
    }
    assert od - {x} == map v | v in c.vertices :: original.Degree(v);
  }

  /** Re-queueing an outdated vertex under its current loss of degree keeps the keys bounded and fresh. */
  lemma RequeueKeys<V>(original: Graph<V>, g: Graph<V>, heap: map<V, int>, outdated: set<V>, v: V)
    requires InducedBy(original, g) && v in g.vertices && v in heap
    requires KeysBounded(original, g, heap) && KeysFresh(original, g, heap, outdated)
    ensures var h := (heap - {v})[v := g.Degree(v) - original.Degree(v)];
            KeysBounded(original, g, h) && KeysFresh(original, g, h, outdated - {v}) && h.Keys == heap.Keys
  {
    InducedDegree(original, g, v);
  }

  /** Every vertex's degree, and every vertex with the key 0 (its degree minus itself). */
  method RecordDegrees<V>(g: SimpleGraph<V>) returns (degrees: map<V, int>, h: map<V, int>)
    ensures degrees == map v | v in g.vertices :: g.Value().Degree(v)
    ensures h == map v | v in g.vertices :: 0
  {
    var vs := g.VertexList();
    degrees := map[];
    h := map[];
    var k := 0;
    while k < |vs|
      invariant 0 <= k <= |vs|
      invariant degrees == map v | v in vs[..k] :: g.Value().Degree(v)
      invariant h == map v | v in vs[..k] :: 0
    {
      var v := vs[k];
      degrees := degrees[v := g.DegreeOf(v)];
      h := h[v := g.DegreeOf(v) - degrees[v]];
      assert vs[..k + 1] == vs[..k] + [v];
      k := k + 1;
    }
    assert vs[..k] == vs;
  }

  class MaxCardinalityHeuristic<V(==)> {
    var originalDegrees: map<V, int>
    /** The queue: each vertex not yet handed out, with its key. */
    var heap: map<V, int>
    var outdated: set<V>
    /** The graph the heuristic was constructed for. */
    ghost var original: Graph<V>
    /** Vertices handed out by `Next` and not yet eliminated. */
    ghost var taken: set<V>

    ghost predicate Valid(g: Graph<V>)
      reads this
    {
      State(original, g, originalDegrees, heap, outdated, taken)
    }

    /** Records every vertex's degree and enqueues every vertex with key 0. */
    constructor (g: SimpleGraph<V>)
      requires g.Valid()
      ensures Valid(g.Value()) && original == g.Value()
      ensures originalDegrees == map v | v in g.vertices :: g.Value().Degree(v)
      ensures heap == map v | v in g.vertices :: 0
      ensures outdated == {} && taken == {}
    {
      var degrees, h := RecordDegrees(g);
      InducedSelf(g.Value());
      originalDegrees := degrees;
      heap := h;
      outdated := {};
      original := g.Value();
      taken := {};
    }

    /**
     * Pops entries until one is up to date; an outdated one is unmarked and
     * re-queued under its recomputed key.  The up-to-date vertex is handed out
     * for the head of the ordering, with its key plus its original degree.
     */
    method Next(g: SimpleGraph<V>) returns (r: EliminationResult<V>)
      requires Valid(g.Value())
      modifies this
      ensures Valid(g.Value())
      ensures r.VertexPrepend? || r.Empty?
      ensures r.Empty? <==> g.vertices == old(taken)
      ensures r.Empty? ==> taken == old(taken)
      ensures outdated <= old(outdated) && originalDegrees == old(originalDegrees)
      ensures r.VertexPrepend? ==>
                && r.vertex in g.vertices - old(taken)
                && taken == old(taken) + {r.vertex}
                && r.degree == g.Value().Degree(r.vertex)
                && r.degree - originalDegrees[r.vertex] == -EliminatedNeighbors(original, g.Value(), r.vertex)
                && (forall u | u in heap :: r.degree - originalDegrees[r.vertex] <= heap[u])
    {
      if g.vertices == {} {
        return Empty;
      }
      ghost var gv := g.Value();
      var top := RefreshTop(g);
      if top.None? {
        forall u | u in g.vertices ensures u in taken {
          assert u !in heap.Keys;
        }
        return Empty;
      }
      var v := top.value;
      var d := heap[v] + originalDegrees[v];
      TakeState(original, gv, originalDegrees, heap, outdated, taken, v);
      heap := heap - {v};
      taken := taken + {v};
      assert g.Value() == gv;
      return VertexPrepend(v, d);
    }

    /**
     * Pops entries while the smallest one is outdated, unmarking each and
     * re-queueing it under its recomputed key.  Yields the vertex of the
     * smallest entry, now up to date and still queued, or nothing once the
     * queue is empty.
     */
    method RefreshTop(g: SimpleGraph<V>) returns (top: Option<V>)
      requires Valid(g.Value())
      modifies this
      ensures Valid(g.Value())
      ensures taken == old(taken) && outdated <= old(outdated) && originalDegrees == old(originalDegrees)
      ensures top.None? <==> heap == map[]
      ensures top.Some? ==> IsMin(heap, top.value) && top.value !in outdated
    {
      ghost var gv := g.Value();
      var h, o := heap, outdated;
      top := None;
      while h != map[]
        invariant State(original, gv, originalDegrees, h, o, taken) && o <= outdated
        invariant top.None? && unchanged(this)
        decreases |o|
      {
        var v, key, rest := DeleteMin(h);
        if v !in o {
          top := Some(v);
          break;
        }
        var d := g.DegreeOf(v);
        RequeueState(original, gv, originalDegrees, h, o, taken, v);
        CardRemove(o, v);
        o := o - {v};
        h := rest[v := d - originalDegrees[v]];
      }
      heap, outdated := h, o;
      assert g.Value() == gv;
    }

    /**
     * Marks every current neighbour outdated, forgets the vertex's original
     * degree and removes the vertex without adding any edge.
     */
    method Eliminate(g: SimpleGraph<V>, x: V)
      requires Valid(g.Value()) && x in taken
      modifies this, g
      ensures Valid(g.Value())
      ensures g.Value() == old(g.Value()).RemoveVertex(x)
      ensures outdated == old(outdated) + old(g.Value()).Neighbors(x)
      ensures originalDegrees == old(originalDegrees) - {x}
      ensures heap == old(heap) && taken == old(taken) - {x}
    {
      ghost var g0 := g.Value();
      var neighbors := g.NeighborListOf(x);
      EliminateState(original, g0, originalDegrees, heap, outdated, taken, x);
      var o := outdated + (set u | u in neighbors);
      assert o == outdated + g0.Neighbors(x);
      outdated := o;
      originalDegrees := originalDegrees - {x};
      var _ := g.RemoveVertex(x);
      taken := taken - {x};
    }
  }
}
