/**
 * The graph library the program builds on (a simple undirected graph with
 * unique vertices, no self-loops and no parallel edges).  Only the behaviour
 * the program relies on is modelled; storage and iteration order are not.
 */
module Graphs {
  import opened Seqs

  /**
   * The value of a simple graph.  Every edge is stored once, oriented as
   * (source, target) in the order its endpoints were passed when it was added.
   */
  datatype Graph<V(==)> = Graph(vertices: set<V>, edges: set<(V, V)>) {

    /** Undirected adjacency: the edge may be stored in either orientation. */
    predicate Adjacent(u: V, v: V) {
      (u, v) in edges || (v, u) in edges
    }

    /** No self-loop, no edge stored in both orientations, endpoints are vertices. */
    predicate IsSimple() {
      forall e | e in edges :: e.0 != e.1 && e.0 in vertices && e.1 in vertices && (e.1, e.0) !in edges
    }

    function Neighbors(v: V): set<V> {
      set u | u in vertices && Adjacent(v, u)
    }

    function Degree(v: V): nat {
      |Neighbors(v)|
    }

    /** Drops `x` and every edge incident to it. */
    function RemoveVertex(x: V): Graph<V> {
      Graph(vertices - {x}, set e | e in edges && e.0 != x && e.1 != x)
    }

    /** Every two distinct members of `s` are adjacent. */
    predicate IsClique(s: set<V>) {
      forall u, v | u in s && v in s && u != v :: Adjacent(u, v)
    }
  }

  /** In a simple graph a vertex is never its own neighbour and sees at most |V| - 1 others. */
  lemma NeighborsBound<V>(g: Graph<V>, v: V)
    requires g.IsSimple() && v in g.vertices
    ensures v !in g.Neighbors(v) && g.Neighbors(v) <= g.vertices - {v}
    ensures g.Degree(v) <= |g.vertices| - 1
  {
    assert g.Neighbors(v) <= g.vertices - {v};
    SubsetCard(g.Neighbors(v), g.vertices - {v});
  }

  lemma {:induction false} SubsetCard<T>(a: set<T>, b: set<T>)
    requires a <= b
    ensures |a| <= |b|
  {
    if a != {} {
      var x :| x in a;
      SubsetCard(a - {x}, b - {x});
    }
  }

  lemma CardRemove<T>(s: set<T>, x: T)
    requires x in s
    ensures |s - {x}| == |s| - 1
  {
    assert s == (s - {x}) + {x};
  }

  /** Removing a vertex keeps a graph simple and only removes neighbours. */
  lemma RemoveVertexNeighbors<V>(g: Graph<V>, x: V, u: V)
    requires g.IsSimple()
    ensures g.RemoveVertex(x).IsSimple()
    ensures u != x ==> g.RemoveVertex(x).Neighbors(u) == g.Neighbors(u) - {x}
  {
  }

  /** The mutable graph object of the library. */
  class SimpleGraph<V(==)> {
    var vertices: set<V>
    var edges: set<(V, V)>

    function Value(): Graph<V>
      reads this
    {
      Graph(vertices, edges)
    }

    ghost predicate Valid()
      reads this
    {
      Value().IsSimple()
    }

    constructor ()
      ensures Valid() && Value() == Graph({}, {})
    {
      vertices := {};
      edges := {};
    }

    /** A new graph object holding `g`. */
    constructor Of(g: Graph<V>)
      requires g.IsSimple()
      ensures Valid() && Value() == g
    {
      vertices := g.vertices;
      edges := g.edges;
    }

    /** The library's shallow clone: a distinct object with the same vertices and edges. */
    method Clone() returns (c: SimpleGraph<V>)
      requires Valid()
      ensures fresh(c) && c.Valid() && c.Value() == Value()
    {
      c := new SimpleGraph.Of(Value());
    }

    method AddVertex(v: V) returns (added: bool)
      modifies this
      ensures added == (v !in old(vertices))
      ensures Value() == Graph(old(vertices) + {v}, old(edges))
    {
      added := v !in vertices;
      vertices := vertices + {v};
    }

    /**
     * Adds the edge (u, v) unless u and v are already adjacent.  The library
     * throws for an absent endpoint or a self-loop; callers exclude both.
     */
    method AddEdge(u: V, v: V) returns (added: bool)
      requires u in vertices && v in vertices && u != v
      modifies this
      ensures added == !old(Value()).Adjacent(u, v)
      ensures Value() == if added then Graph(old(vertices), old(edges) + {(u, v)}) else old(Value())
      ensures old(Valid()) ==> Valid()
    {
      added := (u, v) !in edges && (v, u) !in edges;
      if added {
        edges := edges + {(u, v)};
      }
    }

    function ContainsEdge(u: V, v: V): bool
      reads this
    {
      Value().Adjacent(u, v)
    }

    function DegreeOf(v: V): nat
      reads this
      requires v in vertices
    {
      Value().Degree(v)
    }

    function NeighborSetOf(v: V): set<V>
      reads this
      requires v in vertices
    {
      Value().Neighbors(v)
    }

    /** A fresh list of the neighbours of `v`, in unspecified order. */
    method NeighborListOf(v: V) returns (ns: seq<V>)
      requires v in vertices
      ensures Lists(ns, Value().Neighbors(v))
    {
      ns := ListOf(Value().Neighbors(v));
    }

    /** A fresh list of all vertices, in unspecified order. */
    method VertexList() returns (vs: seq<V>)
      ensures Lists(vs, vertices)
    {
      vs := ListOf(vertices);
    }

    method RemoveVertex(x: V) returns (removed: bool)
      modifies this
      ensures removed == (x in old(vertices))
      ensures Value() == old(Value()).RemoveVertex(x)
      ensures old(Valid()) ==> Valid()
    {
      removed := x in vertices;
      vertices := vertices - {x};
      edges := set e | e in edges && e.0 != x && e.1 != x;
    }

    /** Removes every vertex of `xs` and the edges touching them. */
    method RemoveAllVertices(xs: seq<V>)
      modifies this
      ensures vertices == old(vertices) - (set x | x in xs)
      ensures edges == set e | e in old(edges) && e.0 !in xs && e.1 !in xs
      ensures old(Valid()) ==> Valid()
    {
      var k := 0;
      while k < |xs|
        invariant 0 <= k <= |xs|
        invariant vertices == old(vertices) - (set x | x in xs[..k])
        invariant edges == set e | e in old(edges) && e.0 !in xs[..k] && e.1 !in xs[..k]
        invariant old(Valid()) ==> Valid()
      {
        var _ := RemoveVertex(xs[k]);
        assert xs[..k + 1] == xs[..k] + [xs[k]];
        k := k + 1;
      }
      assert xs[..k] == xs;
    }
  }
}
