/**
 * The minimum-degree heuristic: a priority queue keyed by degree with lazy
 * deletion.  When a vertex is eliminated its neighbours are only marked
 * outdated; their stale entries are refreshed when they reach the top.
 */
module MinDegree {
  import opened Wrappers
  import opened Seqs
  import opened Graphs
  import opened GraphExtensions
  import opened Heaps
  import opened EliminationResults

  /** Every queued vertex that is not marked outdated is keyed by its current degree. */
  ghost predicate KeysFresh<V>(g: Graph<V>, heap: map<V, int>, outdated: set<V>) {
    forall v | v in heap && v !in outdated :: heap[v] == g.Degree(v)
  }

  /** Eliminating `v` changes only the degrees of its neighbours, which are marked outdated. */
  lemma FreshAfterElimination<V>(c: Graph<V>, heap: map<V, int>, outdated: set<V>, v: V, ns: seq<V>)
    requires c.IsSimple() && KeysFresh(c, heap, outdated) && Lists(ns, c.Neighbors(v))
    ensures KeysFresh(Eliminated(c, v, ns), heap - {v}, outdated + c.Neighbors(v))
  {
    forall u | u in heap - {v} && u !in outdated + c.Neighbors(v)
      ensures (heap - {v})[u] == Eliminated(c, v, ns).Degree(u)
    {
      EliminatedNeighbors(c, v, ns, u);
    }
  }

  /** A set holding two distinct elements has at least two elements. */
  lemma TwoElements<T>(s: set<T>, a: T, b: T)
    requires a in s && b in s && a != b
    ensures |s| >= 2
  {
    SubsetCard({a, b}, s);
  }

  class MinDegreeHeuristic<V(==)> {
    /** The queue: each vertex not yet handed out, with the degree it was queued under. */
    var heap: map<V, int>
    var outdated: set<V>
    /** Vertices handed out by `Next` and not yet eliminated. */
    ghost var taken: set<V>

    /**
     * The queue holds every vertex not handed out, and the key of every
     * vertex that is not marked outdated is its current degree.
     */
    ghost predicate Valid(g: Graph<V>)
      reads this
    {
      && g.IsSimple()
      && taken <= g.vertices
      && heap.Keys == g.vertices - taken
      && KeysFresh(g, heap, outdated)
    }

    /** Enqueues every vertex once, keyed by its current degree. */
    constructor (g: SimpleGraph<V>)
      requires g.Valid()
      ensures Valid(g.Value())
      ensures heap == map v | v in g.vertices :: g.Value().Degree(v)
      ensures outdated == {} && taken == {}
    {
      var vs := g.VertexList();
      var h: map<V, int> := map[];
      var k := 0;
      while k < |vs|
        invariant 0 <= k <= |vs|
        invariant h == map v | v in vs[..k] :: g.Value().Degree(v)
      {
        var v := vs[k];
        h := h[v := g.DegreeOf(v)];
        assert vs[..k + 1] == vs[..k] + [v];
        k := k + 1;
      }
      assert vs[..k] == vs;
      heap := h;
      outdated := {};
      taken := {};
    }

    /**
     * Pops entries until one is up to date; an outdated one is unmarked and
     * re-queued under its current degree.  An up-to-date vertex whose key is
     * |V| - 1 while others are still queued ends the run with all vertices;
     * otherwise it is handed out with its key.
     */
    method Next(g: SimpleGraph<V>) returns (r: EliminationResult<V>)
      requires Valid(g.Value())
      modifies this
      ensures Valid(g.Value())
      ensures !r.VertexPrepend?
      ensures r.Empty? <==> g.vertices == old(taken)
      ensures outdated <= old(outdated)
      ensures r.VertexAppend? ==>
                && r.vertex in g.vertices - old(taken)
                && taken == old(taken) + {r.vertex}
                && r.degree == g.Value().Degree(r.vertex)
                && (forall u | u in heap :: r.degree <= heap[u])
      ensures r.FinalAppend? ==>
                && r.vertices == g.vertices
                && |g.vertices - old(taken)| >= 2
                && (exists v | v in g.vertices - old(taken) :: g.Value().Degree(v) == |g.vertices| - 1)
                && heap == map[] && taken == g.vertices
      ensures |g.vertices - old(taken)| == 1 ==> r.VertexAppend?
      ensures r.Empty? ==> taken == old(taken)
    {
      if g.vertices == {} {
        return Empty;
      }
      var top := RefreshTop(g);
      if top.None? {
        assert g.Value().vertices - taken == heap.Keys == {};
        assert g.Value().vertices == g.vertices;
        assert taken <= g.vertices;
        assert forall u | u in g.vertices :: u in taken by {
          forall u | u in g.vertices ensures u in taken {
            assert u !in g.Value().vertices - taken;
          }
        }
        return Empty;
      }
      var v := top.value;
      var d := heap[v];
      var rest := heap - {v};
      if d == |g.vertices| - 1 && rest != map[] {
        ghost var u :| u in rest;
        TwoElements(g.vertices - taken, v, u);
        heap := map[];
        taken := g.vertices;
        return FinalAppend(g.vertices);
      }
      heap := rest;
      taken := taken + {v};
      return VertexAppend(v, d);
    }

    /**
     * Pops entries while the smallest one is outdated, unmarking each and
     * re-queueing it under its current degree.  Yields the vertex of the
     * smallest entry, now up to date and still queued, or nothing once the
     * queue is empty.
     */
    method RefreshTop(g: SimpleGraph<V>) returns (top: Option<V>)
      requires Valid(g.Value())
      modifies this
      ensures Valid(g.Value())
      ensures taken == old(taken) && outdated <= old(outdated)
      ensures top.None? <==> heap == map[]
      ensures top.Some? ==> IsMin(heap, top.value) && top.value !in outdated
    {
      while heap != map[]
        invariant Valid(g.Value())
        invariant taken == old(taken)
        invariant outdated <= old(outdated)
        decreases |outdated|
      {
        var v, key, rest := DeleteMin(heap);
        if v !in outdated {
          return Some(v);
        }
        outdated := outdated - {v};
        heap := rest[v := g.DegreeOf(v)];
      }
      return None;
    }

    /** Marks every current neighbour outdated, then runs the elimination step with that same list. */
    method Eliminate(g: SimpleGraph<V>, x: V) returns (ghost ns: seq<V>)
      requires Valid(g.Value()) && x in taken
      modifies this, g
      ensures Valid(g.Value())
      ensures Lists(ns, old(g.Value()).Neighbors(x))
      ensures g.Value() == Eliminated(old(g.Value()), x, ns)
      ensures outdated == old(outdated) + old(g.Value()).Neighbors(x)
      ensures heap == old(heap) && taken == old(taken) - {x}
    {
      ghost var g0 := g.Value();
      var neighbors := g.NeighborListOf(x);
      ns := neighbors;
      NeighborsBound(g0, x);
      var o := outdated + (set u | u in neighbors);
      assert o == outdated + g0.Neighbors(x);
      FreshAfterElimination(g0, heap, outdated, x, ns);
      assert heap - {x} == heap;
      EliminatedIsSimple(g0, x, ns);
      outdated := o;
      EliminateVertexWith(g, x, neighbors);
      taken := taken - {x};
    }
  }
}
