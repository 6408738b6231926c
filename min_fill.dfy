/**
 * The minimum-fill heuristic: each step scans the vertices and hands out the
 * first one whose fill is smallest, caching neighbour sets and fill counts
 * between steps and invalidating them on elimination.
 */
module MinFill {
  import opened Wrappers
  import opened Seqs
  import opened Graphs
  import opened GraphExtensions
  import opened Fills
  import opened EliminationResults
  import opened MinFillSpec

  class MinFillHeuristic<V(==)> {
    var neighborsMap: map<V, set<V>>
    var fillInEdges: map<V, int>

    ghost predicate Valid(g: Graph<V>)
      reads this
    {
      g.IsSimple() && NeighborsCached(g, neighborsMap) && FillsCached(g, fillInEdges)
    }

    /** Starts with both caches empty; the graph is not inspected. */
    constructor (g: SimpleGraph<V>)
      requires g.Valid()
      ensures Valid(g.Value())
      ensures neighborsMap == map[] && fillInEdges == map[]
    {
      neighborsMap := map[];
      fillInEdges := map[];
    }

    /** The neighbour set of `v`, from the cache, or computed and cached. */
    method GetNeighbors(g: SimpleGraph<V>, v: V) returns (n: set<V>)
      requires Valid(g.Value()) && v in g.vertices
      modifies this
      ensures Valid(g.Value())
      ensures n == g.Value().Neighbors(v)
      ensures neighborsMap == old(neighborsMap)[v := n] && fillInEdges == old(fillInEdges)
    {
      if v in neighborsMap {
        return neighborsMap[v];
      }
      n := g.NeighborSetOf(v);
      neighborsMap := neighborsMap[v := n];
    }

    /**
     * One row of the pair count: the listed vertices after position `i` that
     * are not in the (cached) neighbour set of the vertex at `i`.
     */
    method CountRow(g: SimpleGraph<V>, ns: seq<V>, i: int, ghost bound: set<V>) returns (c: int)
      requires Valid(g.Value()) && 0 <= i < |ns| && ns[i] in g.vertices && NoDups(ns)
      requires neighborsMap.Keys <= bound && (i < |ns| - 1 ==> ns[i] in bound)
      modifies this
      ensures Valid(g.Value()) && fillInEdges == old(fillInEdges)
      ensures old(neighborsMap.Keys) <= neighborsMap.Keys <= bound
      ensures c == NonAdjacentCount(g.Value(), ns[i], ns[i + 1..])
    {
      ghost var gv := g.Value();
      c := 0;
      var j := i + 1;
      while j < |ns|
        invariant i + 1 <= j <= |ns|
        invariant Valid(gv) && fillInEdges == old(fillInEdges)
        invariant old(neighborsMap.Keys) <= neighborsMap.Keys <= bound
        invariant c == NonAdjacentCount(gv, ns[i], ns[i + 1..j])
      {
        var ni := ns[i];
        var nj := ns[j];
        var nn := GetNeighbors(g, ni);
        assert ns[i + 1..j + 1][..j - i - 1] == ns[i + 1..j];
        if nj !in nn {
          c := c + 1;
        }
        j := j + 1;
      }
      assert ns[i + 1..j] == ns[i + 1..];
    }

    /**
     * Counts the fill of `v` over a listing of its cached neighbours, pair by
     * pair, against their cached neighbour sets.  The last listed neighbour's
     * own set is never looked up.
     */
    method CountFill(g: SimpleGraph<V>, v: V) returns (f: int)
      requires Valid(g.Value()) && v in g.vertices
      modifies this
      ensures Valid(g.Value()) && fillInEdges == old(fillInEdges)
      ensures f == Fill(g.Value(), v)
      ensures old(neighborsMap.Keys) <= neighborsMap.Keys <= old(neighborsMap.Keys) + Inspects(g.Value(), v)
    {
      ghost var gv := g.Value();
      var nv := GetNeighbors(g, v);
      var neighborList := ListOf(nv);
      ListsLength(neighborList, nv);
      f := CountRows(g, neighborList, old(neighborsMap.Keys) + Inspects(gv, v));
      FillOfListing(gv, v, neighborList);
    }

    /** The outer loop of the pair count: the rows of all listed vertices, summed. */
    method CountRows(g: SimpleGraph<V>, ns: seq<V>, ghost bound: set<V>) returns (f: int)
      requires Valid(g.Value()) && NoDups(ns) && forall u | u in ns :: u in g.vertices
      requires neighborsMap.Keys <= bound && (|ns| >= 2 ==> forall u | u in ns :: u in bound)
      modifies this
      ensures Valid(g.Value()) && fillInEdges == old(fillInEdges)
      ensures old(neighborsMap.Keys) <= neighborsMap.Keys <= bound
      ensures f == RowsBefore(g.Value(), ns, |ns|)
    {
      ghost var gv := g.Value();
      f := 0;
      var i := 0;
      while i < |ns|
        invariant 0 <= i <= |ns|
        invariant Valid(gv) && fillInEdges == old(fillInEdges)
        invariant old(neighborsMap.Keys) <= neighborsMap.Keys <= bound
        invariant f == RowsBefore(gv, ns, i)
      {
        var row := CountRow(g, ns, i, bound);
        f := f + row;
        i := i + 1;
      }
    }

    /** The fill of `v`, from the cache, or counted and then cached. */
    method GetFillEdgeCount(g: SimpleGraph<V>, v: V) returns (f: int)
      requires Valid(g.Value()) && v in g.vertices
      modifies this
      ensures Valid(g.Value())
      ensures f == Fill(g.Value(), v)
      ensures fillInEdges == old(fillInEdges)[v := f]
      ensures old(neighborsMap.Keys) <= neighborsMap.Keys <= old(neighborsMap.Keys) + Inspects(g.Value(), v)
    {
      if v in fillInEdges {
        return fillInEdges[v];
      }
      f := CountFill(g, v);
      fillInEdges := fillInEdges[v := f];
    }

    /**
     * One vertex of the scan: its degree and, unless it is adjacent to every
     * other vertex, its fill.
     */
    method Inspect(g: SimpleGraph<V>, v: V) returns (d: int, fill: Option<int>)
      requires Valid(g.Value()) && v in g.vertices
      modifies this
      ensures Valid(g.Value()) && v in neighborsMap
      ensures d == g.Value().Degree(v) <= |g.vertices| - 1
      ensures fill.None? <==> d == |g.vertices| - 1
      ensures fill.Some? ==> fill.value == Fill(g.Value(), v)
      ensures old(neighborsMap.Keys) <= neighborsMap.Keys <= old(neighborsMap.Keys) + Inspects(g.Value(), v)
    {
      NeighborsBound(g.Value(), v);
      var n := GetNeighbors(g, v);
      d := |n|;
      if d == |g.vertices| - 1 {
        return d, None;
      }
      var fillEdges := GetFillEdgeCount(g, v);
      fill := Some(fillEdges);
    }

    /**
     * One pass of the scan loop, on the vertex at position `k`: it either
     * stops the scan with a result or hands on the (possibly new) candidate.
     */
    method ScanStep(g: SimpleGraph<V>, order: seq<V>, k: nat, best: Option<Candidate<V>>, ghost at: nat)
      returns (stop: bool, r: EliminationResult<V>, next: Option<Candidate<V>>, ghost nextAt: nat)
      requires Valid(g.Value()) && k < |order| && order[k] in g.vertices
      requires best.Some? ==> best.value.vertex in neighborsMap
      modifies this
      ensures Valid(g.Value())
      ensures forall u | u in neighborsMap :: u in old(neighborsMap) || u in Inspects(g.Value(), order[k])
      ensures stop ==> Outcome(r, k + 1, nextAt) == Scan(g.Value(), order, k, WithPosition(best, at))
      ensures stop ==> r.VertexAppend? ==> r.vertex in neighborsMap
      ensures !stop ==> Scan(g.Value(), order, k + 1, WithPosition(next, nextAt)) == Scan(g.Value(), order, k, WithPosition(best, at))
      ensures !stop ==> next.Some? && next.value.vertex in neighborsMap
    {
      var v := order[k];
      var d, fill := Inspect(g, v);
      if fill.None? {
        return true, FinalAppend(g.vertices), best, k;
      }
      var fillEdges := fill.value;
      if fillEdges == 0 {
        return true, VertexAppend(v, d), best, k;
      }
      if best.None? || fillEdges < best.value.fill {
        return false, Empty, Some(Candidate(v, d, fillEdges)), k;
      }
      return false, Empty, best, at;
    }

    /**
     * Scans the vertices in `order` (the iteration order of the vertex set)
     * as `Scan` describes; the first `n` vertices of `order` are the ones
     * inspected, and only what they inspect is added to the neighbour cache.
     */
    method Next(g: SimpleGraph<V>, order: seq<V>) returns (r: EliminationResult<V>, ghost n: nat, ghost at: nat)
      requires Valid(g.Value()) && |order| == |g.vertices|
      requires forall i | 0 <= i < |order| :: order[i] in g.vertices
      modifies this
      ensures Valid(g.Value()) && n <= |order|
      ensures Outcome(r, n, at) == Scan(g.Value(), order, 0, None)
      ensures r.VertexAppend? ==> r.vertex in neighborsMap
      ensures forall u | u in neighborsMap :: u in old(neighborsMap) || InspectedUpTo(g.Value(), order, n, u)
    {
      if g.vertices == {} {
        return Empty, 0, 0;
      }
      ghost var gv := g.Value();
      ghost var keys0 := neighborsMap.Keys;
      var best: Option<Candidate<V>> := None;
      at := 0;
      var k := 0;
      while k < |order|
        invariant k <= |order| && Valid(gv)
        invariant Scan(gv, order, k, WithPosition(best, at)) == Scan(gv, order, 0, None)
        invariant (best.None? ==> k == 0) && (best.Some? ==> best.value.vertex in neighborsMap)
        invariant forall u | u in neighborsMap :: u in keys0 || InspectedUpTo(gv, order, k, u)
      {
        var stop, next;
        ghost var nextAt;
        ghost var keys := neighborsMap.Keys;
        stop, r, next, nextAt := ScanStep(g, order, k, best, at);
        forall u | u in neighborsMap ensures u in keys0 || InspectedUpTo(gv, order, k + 1, u) {
          assert u in keys || u in Inspects(gv, order[k]);
        }
        if stop {
          return r, k + 1, nextAt;
        }
        best, at := next, nextAt;
        k := k + 1;
      }
      r, n := VertexAppend(best.value.vertex, best.value.degree), k;
    }

    /**
     * The cache update for eliminating `x`, over the neighbour list `ns`, in
     * list order: each listed neighbour's fill cache is dropped, then its
     * cached set loses `x` and gains the other listed neighbours, and the
     * fill caches of its new neighbours are dropped.  A neighbour whose set
     * is not cached stops the loop (the library throws) after its fill cache
     * was dropped, with the earlier neighbours already updated.
     */
    method UpdateCaches(x: V, ns: seq<V>) returns (ok: bool, ghost stopped: nat)
      requires NoDups(ns)
      modifies this
      ensures stopped <= |ns| && (forall u | u in ns[..stopped] :: u in old(neighborsMap))
      ensures ok <==> stopped == |ns|
      ensures !ok ==> ns[stopped] !in old(neighborsMap)
      ensures neighborsMap == UpdatedMap(old(neighborsMap), x, (set u | u in ns), ns[..stopped])
      ensures fillInEdges == old(fillInEdges) - Dropped(old(neighborsMap), x, (set u | u in ns), ns[..stopped])
                                             - (if ok then {} else {ns[stopped]})
    {
      ghost var m0 := neighborsMap;
      ghost var f0 := fillInEdges;
      var listed := set u | u in ns;
      var k := 0;
      while k < |ns|
        invariant 0 <= k <= |ns| && forall u | u in ns[..k] :: u in m0
        invariant neighborsMap == UpdatedMap(m0, x, listed, ns[..k])
        invariant fillInEdges == f0 - Dropped(m0, x, listed, ns[..k])
      {
        var v := ns[k];
        fillInEdges := fillInEdges - {v};
        if v !in neighborsMap {
          return false, k;
        }
        PrefixSnoc(ns, k);
        UpdateStep(m0, f0, x, listed, ns, k);
        assert neighborsMap[v] == m0[v];
        var n := neighborsMap[v];
        n := n - {x};
        n := n + listed;
        n := n - {v};
        neighborsMap := neighborsMap[v := n];
        fillInEdges := fillInEdges - n;
        k := k + 1;
      }
      assert ns[..k] == ns;
      return true, k;
    }

    /**
     * As written: reads the cached sets of `x` and of its neighbours without
     * filling them.  With all of them cached, the neighbour caches are
     * updated for the step, the fill caches within distance two of `x` are
     * dropped and `x` is eliminated.  Otherwise the library throws: at once
     * when `x` has no cached set, changing nothing; else at the first listed
     * neighbour without one, after the earlier neighbours' caches were
     * updated and that neighbour's fill cache was dropped, the graph
     * untouched.
     */
    method Eliminate(g: SimpleGraph<V>, x: V) returns (ok: bool, ghost ns: seq<V>, ghost stopped: nat)
      requires Valid(g.Value()) && x in g.vertices
      modifies this, g
      ensures ok <==> old(x in neighborsMap && forall u | u in neighborsMap[x] :: u in neighborsMap)
      ensures ok ==> Valid(g.Value()) && Lists(ns, old(g.Value()).Neighbors(x))
      ensures ok ==> g.Value() == Eliminated(old(g.Value()), x, ns)
      ensures ok ==> neighborsMap == UpdatedMap(old(neighborsMap), x, old(g.Value()).Neighbors(x), ns) - {x}
      ensures ok ==> fillInEdges == old(fillInEdges) - WithinTwo(old(g.Value()), x)
      ensures !ok ==> g.Value() == old(g.Value())
      ensures !ok && old(x !in neighborsMap) ==> Valid(g.Value()) && neighborsMap == old(neighborsMap) && fillInEdges == old(fillInEdges)
      ensures !ok && old(x in neighborsMap) ==>
                && Lists(ns, old(g.Value()).Neighbors(x)) && stopped < |ns| && ns[stopped] !in old(neighborsMap)
                && (forall u | u in ns[..stopped] :: u in old(neighborsMap))
                && neighborsMap == UpdatedMap(old(neighborsMap), x, old(g.Value()).Neighbors(x), ns[..stopped])
                && fillInEdges == old(fillInEdges) - Dropped(old(neighborsMap), x, old(g.Value()).Neighbors(x), ns[..stopped]) - {ns[stopped]}
    {
      ns, stopped := [], 0;
      if x !in neighborsMap {
        return false, ns, stopped;
      }
      ghost var g0 := g.Value();
      ghost var m0 := neighborsMap;
      ghost var f0 := fillInEdges;
      var neighborsSet := neighborsMap[x];
      var neighborsList := ListOf(neighborsSet);
      ns := neighborsList;
      assert (set u | u in ns) == neighborsSet == g0.Neighbors(x);
      ok, stopped := UpdateCaches(x, neighborsList);
      if !ok {
        return;
      }
      CachedStep(g0, x, ns, m0, f0, neighborsMap, fillInEdges, stopped);
      neighborsMap := neighborsMap - {x};
      EliminateVertexWith(g, x, neighborsList);
    }

    /**
     * Corrected: looks up `x` and its neighbours through the cache-filling
     * lookup first, so every elimination succeeds.
     */
    method EliminateFixed(g: SimpleGraph<V>, x: V) returns (ghost ns: seq<V>)
      requires Valid(g.Value()) && x in g.vertices
      modifies this, g
      ensures Valid(g.Value())
      ensures Lists(ns, old(g.Value()).Neighbors(x))
      ensures g.Value() == Eliminated(old(g.Value()), x, ns)
      ensures neighborsMap.Keys <= old(neighborsMap.Keys) + old(g.Value()).Neighbors(x) - {x}
      ensures fillInEdges == map w | w in old(fillInEdges) && w !in WithinTwo(old(g.Value()), x) :: old(fillInEdges)[w]
    {
      ghost var keys0 := neighborsMap.Keys;
      var neighborsSet := GetNeighbors(g, x);
      var neighborList := ListOf(neighborsSet);
      var k := 0;
      while k < |neighborList|
        invariant 0 <= k <= |neighborList|
        invariant Valid(g.Value()) && fillInEdges == old(fillInEdges) && g.Value() == old(g.Value())
        invariant x in neighborsMap && neighborsMap[x] == neighborsSet
        invariant neighborsMap.Keys <= keys0 + {x} + neighborsSet
        invariant forall p | 0 <= p < k :: neighborList[p] in neighborsMap
      {
        assert neighborList[k] in neighborsSet;
        var _ := GetNeighbors(g, neighborList[k]);
        k := k + 1;
      }
      assert g.Value() == old(g.Value());
      var ok;
      ghost var stopped;
      ok, ns, stopped := Eliminate(g, x);
    }
  }

  /** The path 1 - 2 - 3. */
  function Path(): Graph<int> {
    Graph({1, 2, 3}, {(1, 2), (2, 3)})
  }

  /**
   * Scanned from the leaf 1, the path is handed out at once at 1 (one
   * neighbour, fill 0), and only the set of 1 may have been cached.
   */
  lemma PathScanStopsAtLeaf()
    ensures Scan(Path(), [1, 2, 3], 0, None) == Outcome(VertexAppend(1, 1), 1, 0)
    ensures forall u | InspectedUpTo(Path(), [1, 2, 3], 1, u) :: u == 1
  {
    var g := Path();
    assert g.Neighbors(1) == {2};
    assert FillPairs(g, {2}) == {};
  }

  /** Builds the path through the graph library. */
  method NewPath() returns (g: SimpleGraph<int>)
    ensures fresh(g) && g.Value() == Path()
  {
    g := new SimpleGraph<int>();
    var added := g.AddVertex(1);
    added := g.AddVertex(2);
    added := g.AddVertex(3);
    added := g.AddEdge(1, 2);
    added := g.AddEdge(2, 3);
  }

  /**
   * On the path scanned from the leaf 1, `Next` hands out 1 having cached at
   * most the set of 1, which holds 2, and not the set of 2.
   */
  method ScanPathFromLeaf() returns (g: SimpleGraph<int>, h: MinFillHeuristic<int>, r: EliminationResult<int>)
    ensures fresh(g) && fresh(h) && h.Valid(g.Value()) && g.Value() == Path()
    ensures r == VertexAppend(1, 1)
    ensures 2 !in h.neighborsMap && (1 in h.neighborsMap ==> 2 in h.neighborsMap[1])
  {
    g := NewPath();
    h := new MinFillHeuristic(g);
    ghost var n, at;
    r, n, at := h.Next(g, [1, 2, 3]);
    LeafScanCaches(h.neighborsMap, r, n, at);
  }

  /** What a scan of the path from the leaf leaves in a neighbour cache that started empty. */
  lemma LeafScanCaches(m: map<int, set<int>>, r: EliminationResult<int>, n: nat, at: nat)
    requires NeighborsCached(Path(), m)
    requires Outcome(r, n, at) == Scan(Path(), [1, 2, 3], 0, None)
    requires forall u | u in m :: InspectedUpTo(Path(), [1, 2, 3], n, u)
    ensures r == VertexAppend(1, 1)
    ensures 2 !in m && (1 in m ==> 2 in m[1])
  {
    PathScanStopsAtLeaf();
    assert Path().Neighbors(1) == {2};
  }

  /**
   * The step the heuristic hands out cannot be taken: eliminating 1 right
   * after `Next` fails on the missing set of 2.
   */
  method PathScannedFromLeafFails() returns (r: EliminationResult<int>, ok: bool)
    ensures r == VertexAppend(1, 1) && !ok
  {
    var g, h;
    g, h, r := ScanPathFromLeaf();
    ghost var ns, stopped;
    ok, ns, stopped := h.Eliminate(g, 1);
  }
}
