/**
 * Connectivity of an undirected graph, as the graph library's connectivity
 * inspector decides it: a graph is connected when it has a vertex and
 * every two vertices are joined by a walk.
 */
module Connectivity {
  import opened Seqs
  import opened Graphs

  /** A non-empty sequence of vertices, each adjacent to the next. */
  ghost predicate Walk<T(!new)>(h: Graph<T>, p: seq<T>) {
    && |p| >= 1
    && (forall i | 0 <= i < |p| :: p[i] in h.vertices)
    && (forall i | 0 <= i < |p| - 1 :: h.Adjacent(p[i], p[i + 1]))
  }

  ghost predicate Reachable<T(!new)>(h: Graph<T>, a: T, b: T) {
    exists p | Walk(h, p) :: p[0] == a && p[|p| - 1] == b
  }

  /** At least one vertex, and a walk between every two. */
  ghost predicate Connected<T(!new)>(h: Graph<T>) {
    && h.vertices != {}
    && forall a, b | a in h.vertices && b in h.vertices :: Reachable(h, a, b)
  }

  /** A walk read backwards is a walk between the same ends, swapped. */
  lemma WalkReverse<T(!new)>(h: Graph<T>, p: seq<T>)
    requires Walk(h, p)
    ensures var r := Reverse(p); |r| == |p| && Walk(h, r) && r[0] == p[|p| - 1] && r[|p| - 1] == p[0]
  {
    ReverseIndex(p);
    var r := Reverse(p);
    forall i | 0 <= i < |r| - 1 ensures h.Adjacent(r[i], r[i + 1]) {
      assert r[i] == p[|p| - 1 - i] && r[i + 1] == p[|p| - 2 - i];
      assert h.Adjacent(p[|p| - 2 - i], p[|p| - 1 - i]);
    }
  }

  /** Two walks meeting end to start join into one. */
  lemma WalkJoin<T(!new)>(h: Graph<T>, p: seq<T>, r: seq<T>)
    requires Walk(h, p) && Walk(h, r) && p[|p| - 1] == r[0]
    ensures Walk(h, p + r[1..]) && (p + r[1..])[0] == p[0] && (p + r[1..])[|p| + |r| - 2] == r[|r| - 1]
  {
    var w := p + r[1..];
    forall i | 0 <= i < |w| - 1 ensures h.Adjacent(w[i], w[i + 1]) {
      if i < |p| - 1 {
        assert w[i] == p[i] && w[i + 1] == p[i + 1];
      } else {
        assert w[i] == r[i - |p| + 1] && w[i + 1] == r[i - |p| + 2];
      }
    }
  }

  /** Reachability is symmetric. */
  lemma ReachableSymmetric<T(!new)>(h: Graph<T>, a: T, b: T)
    requires Reachable(h, a, b)
    ensures Reachable(h, b, a)
  {
    var p :| Walk(h, p) && p[0] == a && p[|p| - 1] == b;
    WalkReverse(h, p);
  }

  /** Reachability is transitive. */
  lemma ReachableTransitive<T(!new)>(h: Graph<T>, a: T, b: T, c: T)
    requires Reachable(h, a, b) && Reachable(h, b, c)
    ensures Reachable(h, a, c)
  {
    var p :| Walk(h, p) && p[0] == a && p[|p| - 1] == b;
    var r :| Walk(h, r) && r[0] == b && r[|r| - 1] == c;
    WalkJoin(h, p, r);
  }

  /** A walk never leaves a set of vertices that is closed under adjacency. */
  lemma {:induction false} ClosedHoldsWalk<T(!new)>(h: Graph<T>, closed: set<T>, p: seq<T>, k: nat)
    requires Walk(h, p) && p[0] in closed && k < |p|
    requires forall x, y | x in closed && y in h.vertices && h.Adjacent(x, y) :: y in closed
    ensures p[k] in closed
  {
    if k > 0 {
      ClosedHoldsWalk(h, closed, p, k - 1);
      assert h.Adjacent(p[k - 1], p[k]);
    }
  }

  /** Some vertex reaches all vertices exactly when the graph, having a vertex, is connected. */
  lemma ConnectedFromOne<T(!new)>(h: Graph<T>, s: T)
    requires s in h.vertices
    ensures (forall x | x in h.vertices :: Reachable(h, s, x)) <==> Connected(h)
  {
    if forall x | x in h.vertices :: Reachable(h, s, x) {
      forall a, b | a in h.vertices && b in h.vertices ensures Reachable(h, a, b) {
        ReachableSymmetric(h, s, a);
        ReachableTransitive(h, a, s, b);
      }
    }
  }

  /**
   * The connectivity inspector's verdict: a breadth-first search from some
   * vertex reaches every vertex.  A graph without vertices is not connected.
   */
  method IsConnected<T(!new)>(h: Graph<T>) returns (connected: bool)
    ensures connected <==> Connected(h)
  {
    if h.vertices == {} {
      return false;
    }
    var s :| s in h.vertices;
    assert Walk(h, [s]);
    var reached := {s};
    var frontier := {s};
    while frontier != {}
      invariant frontier <= reached <= h.vertices && s in reached
      invariant forall x | x in reached :: Reachable(h, s, x)
      invariant forall x, y | x in reached && x !in frontier && y in h.vertices && h.Adjacent(x, y) :: y in reached
      decreases h.vertices - reached, frontier
    {
      var x :| x in frontier;
      var found := (h.Neighbors(x) * h.vertices) - reached;
      forall y | y in found ensures Reachable(h, s, y) {
        var p :| Walk(h, p) && p[0] == s && p[|p| - 1] == x;
        assert Walk(h, [x, y]);
        WalkJoin(h, p, [x, y]);
      }
      frontier := frontier - {x} + found;
      reached := reached + found;
    }
    connected := reached == h.vertices;
    if !connected {
      var y :| y in h.vertices && y !in reached;
      if Connected(h) {
        var p :| Walk(h, p) && p[0] == s && p[|p| - 1] == y;
        ClosedHoldsWalk(h, reached, p, |p| - 1);
      }
    } else {
      ConnectedFromOne(h, s);
    }
  }
}
