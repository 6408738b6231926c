/**
 * The verifier of tree decompositions.  A decomposition is given as the
 * library graph whose vertices are the bags (sets of vertices of the
 * original graph); it is checked, in this order, for being acyclic, for
 * covering every vertex, for covering every edge, and for the bags holding
 * any one vertex forming a connected subgraph.
 */
module DecompositionChecks {
  import opened Wrappers
  import opened Seqs
  import opened Graphs
  import opened Connectivity

  /** In `order`, every vertex has at most one neighbour listed before it. */
  ghost predicate EarlierAtMostOne<T>(t: Graph<T>, order: seq<T>) {
    forall i, j, k | 0 <= j < i < |order| && 0 <= k < i && t.Adjacent(order[i], order[j]) && t.Adjacent(order[i], order[k]) :: j == k
  }

  /**
   * A forest: the vertices can be listed so that each has at most one
   * earlier neighbour.  (A cycle would give its last-listed vertex two.)
   */
  ghost predicate IsForest<T(!new)>(t: Graph<T>) {
    exists order :: Lists(order, t.vertices) && EarlierAtMostOne(t, order)
  }

  /** No step of `w` runs along the edge between `u` and `v`, in either direction. */
  ghost predicate Avoids<T>(w: seq<T>, u: T, v: T) {
    forall i | 0 <= i < |w| - 1 :: !(w[i] == u && w[i + 1] == v) && !(w[i] == v && w[i + 1] == u)
  }

  /** The place of `x` in `order`. */
  ghost function Position<T>(order: seq<T>, x: T): (i: nat)
    requires x in order
    ensures i < |order| && order[i] == x
  {
    var i :| 0 <= i < |order| && order[i] == x; i
  }

  /** The index of the member of `w` listed last in `order`. */
  ghost function LatestIn<T>(order: seq<T>, w: seq<T>): (m: nat)
    requires |w| > 0 && forall x | x in w :: x in order
    ensures m < |w| && forall i | 0 <= i < |w| :: Position(order, w[i]) <= Position(order, w[m])
  {
    if |w| == 1 then 0
    else
      var m := LatestIn(order, w[..|w| - 1]);
      if Position(order, w[|w| - 1]) > Position(order, w[m]) then |w| - 1 else m
  }

  /** Two distinct neighbours of `c` listed before it break the forest order. */
  lemma TwoEarlierNeighbors<T>(t: Graph<T>, order: seq<T>, c: T, a: T, b: T)
    requires t.IsSimple() && a != b
    requires a in order && b in order && c in order && t.Adjacent(c, a) && t.Adjacent(c, b)
    requires Position(order, a) <= Position(order, c) && Position(order, b) <= Position(order, c)
    ensures !EarlierAtMostOne(t, order)
  {
    var i, j, k := Position(order, c), Position(order, a), Position(order, b);
    assert j != i && k != i && j != k;
    assert t.Adjacent(order[i], order[j]) && t.Adjacent(order[i], order[k]);
  }

  /**
   * An edge whose ends are also joined by a walk that never uses it lies on
   * a cycle, and no listing of the vertices is then a forest order: the
   * walk's last-listed vertex has two earlier neighbours, unless the walk
   * turns straight back there, and then a shorter walk does the same.
   */
  lemma {:induction false} CycleBreaksOrder<T(!new)>(t: Graph<T>, order: seq<T>, w: seq<T>, u: T, v: T)
    requires t.IsSimple() && t.Adjacent(u, v) && Lists(order, t.vertices)
    requires Walk(t, w) && w[0] == u && w[|w| - 1] == v && Avoids(w, u, v)
    ensures !EarlierAtMostOne(t, order)
    decreases |w|
  {
    var n := |w|;
    assert u != v && n >= 2;
    var m := LatestIn(order, w);
    if m == 0 {
      assert w[1] != v;
      TwoEarlierNeighbors(t, order, u, w[1], v);
    } else if m == n - 1 {
      assert w[n - 2] != u;
      TwoEarlierNeighbors(t, order, v, w[n - 2], u);
    } else if w[m - 1] != w[m + 1] {
      assert t.Adjacent(w[m], w[m - 1]) && t.Adjacent(w[m], w[m + 1]);
      TwoEarlierNeighbors(t, order, w[m], w[m - 1], w[m + 1]);
    } else {
      var r := w[..m] + w[m + 2..];
      assert |r| == n - 2 && r[0] == u && r[|r| - 1] == v;
      forall i | 0 <= i < |r| - 1
        ensures t.Adjacent(r[i], r[i + 1])
        ensures !(r[i] == u && r[i + 1] == v) && !(r[i] == v && r[i + 1] == u)
      {
        if i < m - 1 {
          assert r[i] == w[i] && r[i + 1] == w[i + 1];
        } else if i == m - 1 {
          assert r[i] == w[m + 1] && r[i + 1] == w[m + 2];
        } else {
          assert r[i] == w[i + 2] && r[i + 1] == w[i + 3];
        }
      }
      CycleBreaksOrder(t, order, r, u, v);
    }
  }

  /** A graph with such an edge is no forest. */
  lemma CycleNotForest<T(!new)>(t: Graph<T>, w: seq<T>, u: T, v: T)
    requires t.IsSimple() && t.Adjacent(u, v)
    requires Walk(t, w) && w[0] == u && w[|w| - 1] == v && Avoids(w, u, v)
    ensures !IsForest(t)
  {
    forall order | Lists(order, t.vertices) ensures !EarlierAtMostOne(t, order) {
      CycleBreaksOrder(t, order, w, u, v);
    }
  }

  /** The subgraph of `t` on the vertices `s`. */
  function Induced<T>(t: Graph<T>, s: set<T>): Graph<T> {
    Graph(s, set e | e in t.edges && e.0 in s && e.1 in s)
  }

  /** The bags holding `v`. */
  function BagsWith<V>(t: Graph<set<V>>, v: V): set<set<V>> {
    set b | b in t.vertices && v in b
  }

  ghost predicate VerticesCovered<V>(g: Graph<V>, t: Graph<set<V>>) {
    forall v | v in g.vertices :: exists b | b in t.vertices :: v in b
  }

  /** Some bag holds both endpoints of `e`. */
  ghost predicate Covered<V>(t: Graph<set<V>>, e: (V, V)) {
    exists b | b in t.vertices :: e.0 in b && e.1 in b
  }

  ghost predicate EdgesCovered<V>(g: Graph<V>, t: Graph<set<V>>) {
    forall e | e in g.edges :: Covered(t, e)
  }

  ghost predicate SubtreesConnected<V(!new)>(g: Graph<V>, t: Graph<set<V>>) {
    forall v | v in g.vertices :: Connected(Induced(t, BagsWith(t, v)))
  }

  /** Everything the verifier demands of a decomposition `t` of `g`. */
  ghost predicate IsTreeDecomposition<V(!new)>(g: Graph<V>, t: Graph<set<V>>) {
    IsForest(t) && VerticesCovered(g, t) && EdgesCovered(g, t) && SubtreesConnected(g, t)
  }

  /** The first check that failed. */
  datatype Violation<V> = NotATree | VerticesNotCovered | EdgeNotCovered(source: V, target: V) | SubtreeNotConnected(vertex: V)

  /**
   * Runs the four checks in order and reports the first that fails; `None`
   * is the verifier returning normally.
   */
  method Verify<V(!new)>(g: Graph<V>, t: Graph<set<V>>) returns (violation: Option<Violation<V>>)
    requires t.IsSimple()
    ensures violation.None? <==> IsTreeDecomposition(g, t)
    ensures violation == Some(NotATree) <==> !IsForest(t)
    ensures violation == Some(VerticesNotCovered) ==> IsForest(t) && !VerticesCovered(g, t)
    ensures violation.Some? && violation.value.EdgeNotCovered? ==>
      && IsForest(t) && VerticesCovered(g, t)
      && (violation.value.source, violation.value.target) in g.edges
      && !Covered(t, (violation.value.source, violation.value.target))
    ensures violation.Some? && violation.value.SubtreeNotConnected? ==>
      && IsForest(t) && VerticesCovered(g, t) && EdgesCovered(g, t)
      && violation.value.vertex in g.vertices
      && !Connected(Induced(t, BagsWith(t, violation.value.vertex)))
  {
    var ok := AssertTree(t);
    if !ok {
      return Some(NotATree);
    }
    ok := AssertVerticesCovered(g, t);
    if !ok {
      return Some(VerticesNotCovered);
    }
    var uncovered := AssertEdgesCovered(g, t);
    if uncovered.Some? {
      return Some(EdgeNotCovered(uncovered.value.0, uncovered.value.1));
    }
    var broken := AssertConnectedSubtrees(g, t);
    if broken.Some? {
      return Some(SubtreeNotConnected(broken.value));
    }
    return None;
  }

  /**
   * Depth-first search from every unvisited vertex, rejecting as soon as a
   * vertex has an already visited neighbour other than the one it was
   * reached from.  It accepts exactly the forests: the visiting order gives
   * every vertex at most one earlier neighbour, and a rejection closes a
   * cycle.
   */
  method AssertTree<T(!new)>(t: Graph<T>) returns (ok: bool)
    requires t.IsSimple()
    ensures ok <==> IsForest(t)
  {
    var roots := ListOf(t.vertices);
    var visited: set<T> := {};
    ghost var order: seq<T> := [];
    for i := 0 to |roots|
      invariant visited <= t.vertices && Lists(order, visited)
      invariant forall j | 0 <= j < i :: roots[j] in visited
      invariant EarlierAtMostOne(t, order) && Closed(t, visited)
    {
      if roots[i] !in visited {
        ok, visited, order := Explore(t, roots[i], visited, order);
        if !ok {
          return;
        }
      }
    }
    assert visited == t.vertices;
    ok := true;
  }

  /** No edge leaves `s`. */
  ghost predicate Closed<T(!new)>(t: Graph<T>, s: set<T>) {
    && (forall w, x | w in s && (w, x) in t.edges :: x in s)
    && (forall w, x | w in s && (x, w) in t.edges :: x in s)
  }

  /** `p` walks from `x` to `root` through members of `inside` only. */
  ghost predicate TreePath<T(!new)>(t: Graph<T>, p: seq<T>, x: T, root: T, inside: set<T>) {
    Walk(t, p) && p[0] == x && p[|p| - 1] == root && forall i | 0 <= i < |p| :: p[i] in inside
  }

  /**
   * One depth-first search of `AssertTree` from an unvisited `root`, with its
   * stack of vertices and the parallel stack of their parents; the searches
   * before it left `visited0` with no edge leaving it.
   */
  method Explore<T(!new)>(t: Graph<T>, root: T, visited0: set<T>, ghost order0: seq<T>) returns (ok: bool, visited: set<T>, ghost order: seq<T>)
    requires t.IsSimple() && root in t.vertices && visited0 <= t.vertices && root !in visited0
    requires Lists(order0, visited0) && EarlierAtMostOne(t, order0) && Closed(t, visited0)
    ensures ok ==> root in visited && visited0 <= visited <= t.vertices && Closed(t, visited)
    ensures ok ==> Lists(order, visited) && EarlierAtMostOne(t, order)
    ensures !ok ==> !IsForest(t)
  {
    visited, order := visited0, order0;
    var stack := [root];
    var parentStack: seq<Option<T>> := [None];
    ghost var paths: map<T, seq<T>> := map[];
    while stack != []
      invariant |parentStack| == |stack|
      invariant forall x | x in stack :: x in t.vertices
      invariant visited0 <= visited <= t.vertices
      invariant Lists(order, visited) && EarlierAtMostOne(t, order)
      invariant root in visited || (stack == [root] && parentStack == [None] && visited == visited0)
      invariant forall s | 0 <= s < |stack| :: StackedFrom(t, visited - visited0, root, stack[s], parentStack[s])
      invariant forall x | x in visited - visited0 :: x in paths && TreePath(t, paths[x], x, root, visited)
      invariant Frontier(t, visited, visited, stack)
      decreases t.vertices - visited, |stack|
    {
      var current := stack[|stack| - 1];
      var parent := parentStack[|parentStack| - 1];
      assert StackedFrom(t, visited - visited0, root, current, parent);
      FrontierPop(t, visited, visited, stack);
      stack, parentStack := stack[..|stack| - 1], parentStack[..|parentStack| - 1];
      if current in visited {
        continue;
      }
      ghost var before := visited;
      visited := visited + {current};
      var neighbors := ListOf(t.Neighbors(current));
      for k := 0 to |neighbors|
        invariant |parentStack| == |stack|
        invariant forall x | x in stack :: x in t.vertices
        invariant forall s | 0 <= s < |stack| :: StackedFrom(t, visited - visited0, root, stack[s], parentStack[s])
        invariant Frontier(t, before, visited, stack)
        invariant Waiting(neighbors[..k], visited, stack)
        invariant forall m | 0 <= m < k :: Some(neighbors[m]) == parent || neighbors[m] !in visited
      {
        var neighbor := neighbors[k];
        assert neighbor in t.Neighbors(current);
        if Some(neighbor) == parent {
          WaitingVisited(neighbors, k, visited, stack);
          continue;
        }
        if neighbor in visited {
          RejectionCycle(t, visited0, before, paths, root, current, parent, neighbor);
          return false, visited, order;
        }
        FrontierPush(t, before, visited, stack, neighbor);
        WaitingPush(neighbors, k, visited, stack);
        stack := stack + [neighbor];
        parentStack := parentStack + [Some(current)];
      }
      assert neighbors[..|neighbors|] == neighbors;
      FrontierVisit(t, before, current, stack, neighbors);
      forall u | u in visited - {current} && t.Adjacent(current, u) ensures Some(u) == parent {
        assert u in neighbors;
      }
      OrderExtends(t, order, visited - {current}, current, parent);
      order := order + [current];
      paths := PathsGrow(t, visited0, before, paths, root, current, parent);
    }
    ok := true;
  }

  /** Every neighbour of a member of `from` is visited or waits on the stack. */
  ghost predicate Frontier<T(!new)>(t: Graph<T>, from: set<T>, visited: set<T>, stack: seq<T>) {
    forall w, x | w in from && t.Adjacent(w, x) :: x in visited || x in stack
  }

  /** Popping the top of the stack, which is then visited, keeps the frontier. */
  lemma FrontierPop<T(!new)>(t: Graph<T>, from: set<T>, visited: set<T>, stack: seq<T>)
    requires stack != [] && Frontier(t, from, visited, stack)
    ensures Frontier(t, from, visited + {stack[|stack| - 1]}, stack[..|stack| - 1])
  {
    forall w, x | w in from && t.Adjacent(w, x) ensures x in visited + {stack[|stack| - 1]} || x in stack[..|stack| - 1] {
      if x in stack && x != stack[|stack| - 1] {
        var i :| 0 <= i < |stack| && stack[i] == x;
        assert stack[..|stack| - 1][i] == x;
      }
    }
  }

  /** Pushing keeps the frontier. */
  lemma FrontierPush<T(!new)>(t: Graph<T>, from: set<T>, visited: set<T>, stack: seq<T>, y: T)
    requires Frontier(t, from, visited, stack)
    ensures Frontier(t, from, visited, stack + [y])
  {
    forall w, x | w in from && t.Adjacent(w, x) ensures x in visited || x in stack + [y] {
      if x in stack {
        var i :| 0 <= i < |stack| && stack[i] == x;
        assert (stack + [y])[i] == x;
      }
    }
  }

  /** Every member of `xs` is visited or waits on the stack. */
  ghost predicate Waiting<T>(xs: seq<T>, visited: set<T>, stack: seq<T>) {
    forall x | x in xs :: x in visited || x in stack
  }

  /** A visited vertex needs no place on the stack. */
  lemma WaitingVisited<T>(xs: seq<T>, k: nat, visited: set<T>, stack: seq<T>)
    requires k < |xs| && Waiting(xs[..k], visited, stack) && xs[k] in visited
    ensures Waiting(xs[..k + 1], visited, stack)
  {
    assert xs[..k + 1] == xs[..k] + [xs[k]];
  }

  /** A pushed vertex waits on the stack. */
  lemma WaitingPush<T>(xs: seq<T>, k: nat, visited: set<T>, stack: seq<T>)
    requires k < |xs| && Waiting(xs[..k], visited, stack)
    ensures Waiting(xs[..k + 1], visited, stack + [xs[k]])
  {
    var y := xs[k];
    assert xs[..k + 1] == xs[..k] + [y];
    forall x | x in xs[..k + 1] ensures x in visited || x in stack + [y] {
      if x in stack {
        var i :| 0 <= i < |stack| && stack[i] == x;
        assert (stack + [y])[i] == x;
      }
    }
  }

  /** Once every neighbour of `c` is visited or stacked, `c` joins the frontier's sources. */
  lemma FrontierVisit<T(!new)>(t: Graph<T>, before: set<T>, c: T, stack: seq<T>, neighbors: seq<T>)
    requires t.IsSimple() && Frontier(t, before, before + {c}, stack) && Lists(neighbors, t.Neighbors(c))
    requires Waiting(neighbors, before + {c}, stack)
    ensures Frontier(t, before + {c}, before + {c}, stack)
  {
    forall w, x | w in before + {c} && t.Adjacent(w, x) ensures x in before + {c} || x in stack {
      if w == c && w !in before {
        assert x in t.Neighbors(c);
        var m :| 0 <= m < |neighbors| && neighbors[m] == x;
      }
    }
  }

  /** A stacked vertex is the root, stacked with no parent, or a neighbour of its visited parent. */
  ghost predicate StackedFrom<T>(t: Graph<T>, visited: set<T>, root: T, x: T, parent: Option<T>) {
    if parent.Some? then parent.value in visited && t.Adjacent(parent.value, x) else x == root
  }

  /** Visiting `c` from `parent` gives it a walk to the root through its parent's. */
  lemma PathsGrow<T(!new)>(t: Graph<T>, visited0: set<T>, before: set<T>, paths: map<T, seq<T>>, root: T, c: T, parent: Option<T>)
    returns (paths': map<T, seq<T>>)
    requires t.IsSimple() && c in t.vertices && c !in before && visited0 <= before
    requires forall x | x in before - visited0 :: x in paths && TreePath(t, paths[x], x, root, before)
    requires StackedFrom(t, before - visited0, root, c, parent)
    ensures forall x | x in before + {c} - visited0 :: x in paths' && TreePath(t, paths'[x], x, root, before + {c})
  {
    var p := if parent.Some? then [c] + paths[parent.value] else [c];
    paths' := paths[c := p];
    if parent.Some? {
      var q := paths[parent.value];
      assert TreePath(t, q, parent.value, root, before);
      WalkJoin(t, [c, parent.value], q);
      assert [c, parent.value] + q[1..] == p;
    }
    forall x | x in before + {c} - visited0 ensures x in paths' && TreePath(t, paths'[x], x, root, before + {c}) {
      if x != c {
        assert TreePath(t, paths[x], x, root, before);
      }
    }
  }

  /**
   * The rejection of `AssertTree`: `v`, just visited from `parent`, has an
   * earlier visited neighbour `u` other than its parent.  Then `u` was
   * reached in the same search, and the walks of `u` and of the parent to
   * the root, with the parent's edge to `v`, join `u` to `v` without the
   * edge between them: a cycle.
   */
  lemma RejectionCycle<T(!new)>(t: Graph<T>, visited0: set<T>, before: set<T>, paths: map<T, seq<T>>, root: T, v: T, parent: Option<T>, u: T)
    requires t.IsSimple() && Closed(t, visited0) && root !in visited0 && visited0 <= before && v !in before
    requires forall x | x in before - visited0 :: x in paths && TreePath(t, paths[x], x, root, before)
    requires StackedFrom(t, before - visited0, root, v, parent)
    requires root in before || before == visited0
    requires u in before && t.Adjacent(v, u) && Some(u) != parent
    ensures !IsForest(t)
  {
    if parent.None? {
      assert false;
    } else {
      var pv := parent.value;
      assert u !in visited0;
      var pu, pp := paths[u], paths[pv];
      assert TreePath(t, pu, u, root, before) && TreePath(t, pp, pv, root, before);
      WalkReverse(t, pp);
      ReverseIndex(pp);
      var r := Reverse(pp);
      WalkJoin(t, pu, r);
      var q := pu + r[1..];
      forall i | 0 <= i < |q| ensures q[i] in before {
        if i >= |pu| {
          assert q[i] == r[i - |pu| + 1] == pp[|pp| - 1 - (i - |pu| + 1)];
        }
      }
      WalkJoin(t, q, [pv, v]);
      var w := q + [v];
      assert q + [pv, v][1..] == w;
      forall i | 0 <= i < |w| - 1 ensures !(w[i] == u && w[i + 1] == v) && !(w[i] == v && w[i + 1] == u) {
        assert w[i] == q[i];
        if i < |q| - 1 {
          assert w[i + 1] == q[i + 1];
        }
      }
      CycleNotForest(t, w, u, v);
    }
  }

  /** A vertex whose only earlier neighbour can be its parent keeps the order a forest order. */
  lemma OrderExtends<T>(t: Graph<T>, order: seq<T>, visited: set<T>, c: T, parent: Option<T>)
    requires Lists(order, visited) && c !in visited && EarlierAtMostOne(t, order)
    requires forall u | u in visited && t.Adjacent(c, u) :: Some(u) == parent
    ensures Lists(order + [c], visited + {c}) && EarlierAtMostOne(t, order + [c])
  {
    ListsSnoc(order, visited, c);
    var o := order + [c];
    forall i, j, k | 0 <= j < i < |o| && 0 <= k < i && t.Adjacent(o[i], o[j]) && t.Adjacent(o[i], o[k]) ensures j == k {
      if i == |order| {
        assert o[j] == order[j] && o[k] == order[k];
        assert order[j] in visited && order[k] in visited;
      } else {
        assert o[i] == order[i] && o[j] == order[j] && o[k] == order[k];
      }
    }
  }

  /** Collects the vertices of all bags and compares with the graph's vertices. */
  method AssertVerticesCovered<V>(g: Graph<V>, t: Graph<set<V>>) returns (ok: bool)
    ensures ok <==> VerticesCovered(g, t)
  {
    var bags := ListOf(t.vertices);
    var covered: set<V> := {};
    for i := 0 to |bags|
      invariant forall v :: v in covered <==> exists j | 0 <= j < i :: v in bags[j]
    {
      covered := covered + bags[i];
    }
    ok := g.vertices <= covered;
    if !ok {
      var v :| v in g.vertices && v !in covered;
      assert !(exists b | b in t.vertices :: v in b) by {
        forall b | b in t.vertices ensures v !in b {
          var j :| 0 <= j < |bags| && bags[j] == b;
        }
      }
    }
  }

  /** The first edge, in the graph's edge order, that no bag covers. */
  method AssertEdgesCovered<V>(g: Graph<V>, t: Graph<set<V>>) returns (uncovered: Option<(V, V)>)
    ensures uncovered.None? <==> EdgesCovered(g, t)
    ensures uncovered.Some? ==> uncovered.value in g.edges && !Covered(t, uncovered.value)
  {
    var edges := ListOf(g.edges);
    var bags := ListOf(t.vertices);
    for i := 0 to |edges|
      invariant forall j | 0 <= j < i :: Covered(t, edges[j])
    {
      var (source, target) := edges[i];
      var edgeCovered := false;
      for k := 0 to |bags|
        invariant !edgeCovered ==> forall m | 0 <= m < k :: !(source in bags[m] && target in bags[m])
        invariant edgeCovered ==> Covered(t, edges[i])
      {
        if source in bags[k] && target in bags[k] {
          edgeCovered := true;
          break;
        }
      }
      if !edgeCovered {
        assert !Covered(t, edges[i]) by {
          forall b | b in t.vertices ensures !(source in b && target in b) {
            var m :| 0 <= m < |bags| && bags[m] == b;
          }
        }
        return Some(edges[i]);
      }
    }
    assert forall e | e in g.edges :: Covered(t, e) by {
      forall e | e in g.edges ensures Covered(t, e) {
        var j :| 0 <= j < |edges| && edges[j] == e;
      }
    }
    return None;
  }

  /** The first vertex, in the graph's vertex order, whose bags do not form a connected subgraph. */
  method AssertConnectedSubtrees<V(!new)>(g: Graph<V>, t: Graph<set<V>>) returns (broken: Option<V>)
    requires t.IsSimple()
    ensures broken.None? <==> SubtreesConnected(g, t)
    ensures broken.Some? ==> broken.value in g.vertices && !Connected(Induced(t, BagsWith(t, broken.value)))
  {
    var vertices := ListOf(g.vertices);
    var bags := ListOf(t.vertices);
    for i := 0 to |vertices|
      invariant forall j | 0 <= j < i :: Connected(Induced(t, BagsWith(t, vertices[j])))
    {
      var vertex := vertices[i];
      var containing: set<set<V>> := {};
      for k := 0 to |bags|
        invariant containing == set m | 0 <= m < k && vertex in bags[m] :: bags[m]
      {
        if vertex in bags[k] {
          containing := containing + {bags[k]};
        }
      }
      assert containing == BagsWith(t, vertex);
      var induced := InducedSubgraph(t, containing);
      var connected := IsConnected(induced.Value());
      SameConnected(induced.Value(), Induced(t, containing));
      if !connected {
        return Some(vertex);
      }
    }
    assert forall v | v in g.vertices :: Connected(Induced(t, BagsWith(t, v))) by {
      forall v | v in g.vertices ensures Connected(Induced(t, BagsWith(t, v))) {
        var j :| 0 <= j < |vertices| && vertices[j] == v;
      }
    }
    return None;
  }

  /** A new library graph on the bags `s`, with an edge between two of them exactly when `t` has one. */
  method InducedSubgraph<T>(t: Graph<T>, s: set<T>) returns (h: SimpleGraph<T>)
    requires t.IsSimple() && s <= t.vertices
    ensures fresh(h) && h.Valid() && h.vertices == s
    ensures forall a, b :: h.Value().Adjacent(a, b) <==> a in s && b in s && t.Adjacent(a, b)
  {
    h := new SimpleGraph();
    var members := ListOf(s);
    for i := 0 to |members|
      invariant h.Valid() && h.edges == {}
      invariant h.vertices == set j | 0 <= j < i :: members[j]
    {
      var _ := h.AddVertex(members[i]);
    }
    for i := 0 to |members|
      invariant h.Valid() && h.vertices == s
      invariant forall a, b :: h.Value().Adjacent(a, b) ==> a in s && b in s && t.Adjacent(a, b)
      invariant forall j, m | 0 <= j < i && 0 <= m < |members| && t.Adjacent(members[j], members[m]) :: h.Value().Adjacent(members[j], members[m])
    {
      AddEdgesFrom(h, t, s, members, i);
    }
    forall a, b | a in s && b in s && t.Adjacent(a, b) ensures h.Value().Adjacent(a, b) {
      var j :| 0 <= j < |members| && members[j] == a;
      var m :| 0 <= m < |members| && members[m] == b;
    }
  }

  /** The inner loop of `InducedSubgraph`: adds the edges of `t` from `members[i]` to every member. */
  method AddEdgesFrom<T>(h: SimpleGraph<T>, t: Graph<T>, s: set<T>, members: seq<T>, i: nat)
    requires t.IsSimple() && h.Valid() && h.vertices == s && i < |members|
    requires forall x | x in members :: x in s
    requires forall a, b :: h.Value().Adjacent(a, b) ==> a in s && b in s && t.Adjacent(a, b)
    modifies h
    ensures h.Valid() && h.vertices == s && old(h.edges) <= h.edges
    ensures forall a, b :: h.Value().Adjacent(a, b) ==> a in s && b in s && t.Adjacent(a, b)
    ensures forall m | 0 <= m < |members| && t.Adjacent(members[i], members[m]) :: h.Value().Adjacent(members[i], members[m])
  {
    for k := 0 to |members|
      invariant h.Valid() && h.vertices == s && old(h.edges) <= h.edges
      invariant forall a, b :: h.Value().Adjacent(a, b) ==> a in s && b in s && t.Adjacent(a, b)
      invariant forall m | 0 <= m < k && t.Adjacent(members[i], members[m]) :: h.Value().Adjacent(members[i], members[m])
    {
      if t.Adjacent(members[i], members[k]) {
        var _ := h.AddEdge(members[i], members[k]);
      }
    }
  }

  /** Connectivity depends only on the vertices and on which pairs are adjacent. */
  lemma SameConnected<T(!new)>(h1: Graph<T>, h2: Graph<T>)
    requires h1.vertices == h2.vertices
    requires forall a, b :: h1.Adjacent(a, b) <==> h2.Adjacent(a, b)
    ensures Connected(h1) <==> Connected(h2)
  {
    forall p ensures Walk(h1, p) <==> Walk(h2, p) {
    }
  }
}
