/**
 * The one-shot minimum-fill heuristic.  Each round queues every vertex
 * left by degree and scans them in that order for one whose elimination
 * adds no edge; the first such vertex is eliminated, so every vertex of
 * smaller degree had fill above 0.  A scanned vertex adjacent to all
 * others, or reaching the last entry, ends the run with all vertices left.
 */
module LegacyMinFill {
  import opened Seqs
  import opened Graphs
  import opened Wrappers
  import opened GraphExtensions
  import opened Fills
  import opened Heaps
  import opened Replays
  import opened LegacyElimination

  /** The largest value of a Java `long`: the running minimum before any vertex is scanned. */
  const LongMax: int := 0x7FFF_FFFF_FFFF_FFFF

  /**
   * The ordering: every vertex of the graph exactly once, and the graph is
   * left empty.  The first `singles` vertices were eliminated one by one,
   * each with fill 0, not adjacent to all other vertices left at its turn,
   * and with every vertex left of smaller degree at fill above 0.  The
   * rest, the vertices left then, were appended at once: one of
   * them was adjacent to all the others, or every one but one had fill
   * above 0.
   */
  method Compute<V>(g: SimpleGraph<V>) returns (result: seq<V>, ghost singles: nat)
    requires g.Valid()
    modifies g
    ensures Lists(result, old(g.vertices))
    ensures g.vertices == {} && g.edges == {}
    ensures singles <= |result| && (old(g.vertices) != {} <==> singles < |result|)
    ensures Simplicial(old(g.Value()), result[..singles]) && FirstFillFree(old(g.Value()), result[..singles])
    ensures singles < |result| ==>
              var left := After(old(g.Value()), result[..singles], true);
              HasUniversal(left) || AllFilledButOne(left)
  {
    if g.vertices == {} {
      NoVerticesNoEdges(g.Value());
      return [], 0;
    }
    ghost var g0 := g.Value();
    result := [];
    ReplayedStart(g0);
    singles := 0;
    assert FirstFillFree(g0, result);
    var stop := false;
    while !stop
      invariant !stop ==> g.Valid() && g.vertices != {} && Replayed(g0, g.Value(), result) && Simplicial(g0, result)
      invariant !stop ==> FirstFillFree(g0, result)
      invariant stop ==> g.vertices == {} && g.edges == {} && Finished(g0, result, singles)
      decreases !stop, |g.vertices|
    {
      stop, result, singles := Round(g, g0, result);
    }
  }

  /** Every vertex of `h` but one has fill above 0. */
  ghost predicate AllFilledButOne<V>(h: Graph<V>) {
    exists u | u in h.vertices :: forall w | w in h.vertices && w != u :: Fill(h, w) > 0
  }

  /** Every vertex of `h` of smaller degree than `x` has fill above 0. */
  ghost predicate LowestFillFree<V>(h: Graph<V>, x: V) {
    forall w | w in h.vertices && h.Degree(w) < h.Degree(x) :: Fill(h, w) > 0
  }

  /** At every turn of `o`, every vertex left of smaller degree than the one handed out had fill above 0. */
  ghost predicate FirstFillFree<V>(g0: Graph<V>, o: seq<V>) {
    forall i | 0 <= i < |o| :: LowestFillFree(After(g0, o[..i], true), o[i])
  }

  /** Handing out a vertex that comes first among the fill-free ones by degree keeps `FirstFillFree`. */
  lemma FirstFillFreeSnoc<V>(g0: Graph<V>, c: Graph<V>, o: seq<V>, v: V)
    requires FirstFillFree(g0, o) && Same(c, After(g0, o, true)) && LowestFillFree(c, v)
    ensures FirstFillFree(g0, o + [v])
  {
    var left := After(g0, o, true);
    SameNeighbors(c, left, v);
    forall w | w in left.vertices && left.Degree(w) < left.Degree(v) ensures Fill(left, w) > 0 {
      SameNeighbors(c, left, w);
      SameFill(c, left, w);
    }
    var o' := o + [v];
    forall i | 0 <= i < |o'| ensures LowestFillFree(After(g0, o'[..i], true), o'[i]) {
      if i < |o| {
        assert o'[..i] == o[..i] && o'[i] == o[i];
      } else {
        assert o'[..i] == o;
      }
    }
  }

  /** What the run promises once it stops. */
  ghost predicate Finished<V>(g0: Graph<V>, result: seq<V>, singles: nat) {
    && Lists(result, g0.vertices)
    && singles < |result|
    && Simplicial(g0, result[..singles]) && FirstFillFree(g0, result[..singles])
    && var left := After(g0, result[..singles], true);
       HasUniversal(left) || AllFilledButOne(left)
  }

  /**
   * One round of the outer loop: scans for a vertex with fill 0 and
   * eliminates it, or hands out all vertices left and empties the graph.
   */
  method Round<V>(g: SimpleGraph<V>, ghost g0: Graph<V>, result: seq<V>) returns (stop: bool, result': seq<V>, ghost singles: nat)
    requires g.Valid() && g.vertices != {} && Replayed(g0, g.Value(), result) && Simplicial(g0, result)
    requires FirstFillFree(g0, result)
    modifies g
    ensures !stop ==> g.Valid() && g.vertices != {} && Replayed(g0, g.Value(), result') && Simplicial(g0, result')
    ensures !stop ==> FirstFillFree(g0, result')
    ensures !stop ==> |g.vertices| < old(|g.vertices|)
    ensures stop ==> g.vertices == {} && g.edges == {} && Finished(g0, result', singles)
  {
    singles := |result|;
    var picked := Scan(g);
    if picked.None? {
      var remaining := g.VertexList();
      BatchFacts(g0, g.Value(), result, remaining);
      result' := result + remaining;
      g.RemoveAllVertices(remaining);
      NoVerticesNoEdges(g.Value());
      return true, result', singles;
    }
    var v := picked.value;
    ghost var c := g.Value();
    ghost var ns := Eliminate(g, v);
    result' := result + [v];
    SingleFacts(g0, c, result, v, ns);
    FirstFillFreeSnoc(g0, c, result, v);
    return false, result', singles;
  }

  /**
   * The scan of one round: queues every vertex by its degree and pops them
   * in order.  A popped vertex adjacent to all others, or the last entry,
   * ends the scan with nothing picked; otherwise the first popped vertex
   * whose fill-edge count is 0 is picked.  Every vertex scanned before it
   * had a positive count; since the queue pops by degree, so had every
   * vertex of smaller degree.
   */
  method Scan<V>(g: SimpleGraph<V>) returns (picked: Option<V>)
    requires g.Valid() && g.vertices != {}
    ensures picked.Some? ==>
              && picked.value in g.vertices && Fill(g.Value(), picked.value) == 0
              && g.Value().Degree(picked.value) < |g.vertices| - 1
              && LowestFillFree(g.Value(), picked.value)
    ensures picked.None? ==> HasUniversal(g.Value()) || AllFilledButOne(g.Value())
  {
    ghost var c := g.Value();
    var heap := QueueByDegree(g);
    var minFillEdges := LongMax;
    var minFillVertex: Option<V> := None;
    ghost var scanned: set<V> := {};
    while heap != map[]
      invariant Scanning(c, heap, scanned) && minFillEdges > 0
      decreases |heap|
    {
      var v, key, rest := DeleteMin(heap);
      if key == |g.vertices| - 1 || rest == map[] {
        ScanEndsFacts(c, heap, scanned, v);
        return None;
      }
      var neighbors := g.NeighborListOf(v);
      var fillEdges := FillEdgeCount(g.Value(), v, neighbors);
      FillEdgeCountIsTwiceFill(c, v, neighbors);
      if fillEdges < minFillEdges {
        minFillEdges := fillEdges;
        minFillVertex := Some(v);
        if fillEdges == 0 {
          PickedFacts(c, heap, scanned, v);
          break;
        }
      }
      ScanNext(c, heap, scanned, v);
      heap := rest;
      scanned := scanned + {v};
    }
    return minFillVertex;
  }

  /**
   * A popped vertex that does not end the scan is a vertex of the graph with
   * fewer than |V| - 1 neighbours, and, popped first by degree, it comes
   * after every vertex of smaller degree, all scanned with fill above 0.
   */
  lemma PickedFacts<V>(c: Graph<V>, heap: map<V, int>, scanned: set<V>, v: V)
    requires Scanning(c, heap, scanned) && IsMin(heap, v) && heap[v] != |c.vertices| - 1
    requires c.IsSimple()
    ensures v in c.vertices && c.Degree(v) < |c.vertices| - 1
    ensures LowestFillFree(c, v)
  {
    NeighborsBound(c, v);
    forall w | w in c.vertices && c.Degree(w) < c.Degree(v) ensures Fill(c, w) > 0 {
      assert w !in heap;
    }
  }

  /**
   * The state of a scan: the queue holds the vertices not yet scanned,
   * keyed by their degrees, and every vertex scanned has fill above 0.
   */
  ghost predicate Scanning<V>(c: Graph<V>, heap: map<V, int>, scanned: set<V>) {
    && heap != map[] && heap.Keys !! scanned && heap.Keys + scanned == c.vertices
    && (forall u | u in heap :: heap[u] == c.Degree(u))
    && (forall w | w in scanned :: Fill(c, w) > 0)
  }

  lemma ScanNext<V>(c: Graph<V>, heap: map<V, int>, scanned: set<V>, v: V)
    requires Scanning(c, heap, scanned) && v in heap && heap - {v} != map[] && Fill(c, v) > 0
    ensures Scanning(c, heap - {v}, scanned + {v})
  {
  }

  /** Why a scan ends with nothing picked: the popped vertex is adjacent to all others, or it was the last entry. */
  lemma ScanEndsFacts<V>(c: Graph<V>, heap: map<V, int>, scanned: set<V>, v: V)
    requires Scanning(c, heap, scanned) && v in heap
    requires heap[v] == |c.vertices| - 1 || heap - {v} == map[]
    ensures HasUniversal(c) || AllFilledButOne(c)
  {
    if heap[v] == |c.vertices| - 1 {
      assert HasUniversal(c);
    } else {
      assert heap.Keys == {v} by {
        assert (heap - {v}).Keys == {};
      }
      forall w | w in c.vertices && w != v ensures Fill(c, w) > 0 {
        assert w in scanned;
      }
      assert AllFilledButOne(c);
    }
  }

  /** Handing out all vertices left finishes the run. */
  lemma BatchFacts<V>(g0: Graph<V>, c: Graph<V>, result: seq<V>, remaining: seq<V>)
    requires Replayed(g0, c, result) && Simplicial(g0, result) && FirstFillFree(g0, result) && Lists(remaining, c.vertices)
    requires HasUniversal(c) || AllFilledButOne(c)
    ensures Finished(g0, result + remaining, |result|)
  {
    var left := After(g0, result, true);
    HandOutRest(result, g0.vertices, c.vertices, remaining);
    assert (result + remaining)[..|result|] == result;
    if HasUniversal(c) {
      var u :| u in c.vertices && c.Degree(u) == |c.vertices| - 1;
      SameNeighbors(c, left, u);
    } else {
      var u :| u in c.vertices && forall w | w in c.vertices && w != u :: Fill(c, w) > 0;
      forall w | w in left.vertices && w != u ensures Fill(left, w) > 0 {
        SameFill(c, left, w);
      }
    }
  }

  /** Eliminating a picked vertex extends the run by one simplicial turn. */
  lemma SingleFacts<V>(g0: Graph<V>, c: Graph<V>, result: seq<V>, v: V, ns: seq<V>)
    requires Replayed(g0, c, result) && Simplicial(g0, result)
    requires v in c.vertices && Fill(c, v) == 0 && c.Degree(v) < |c.vertices| - 1
    requires Lists(ns, c.Neighbors(v))
    ensures Replayed(g0, Eliminated(c, v, ns), result + [v]) && Simplicial(g0, result + [v])
    ensures Eliminated(c, v, ns).vertices != {} && |Eliminated(c, v, ns).vertices| < |c.vertices|
  {
    ReplayedStep(g0, c, result, v, ns);
    SimplicialSnoc(g0, result, v);
    CardRemove(c.vertices, v);
    StepFacts(c, v, true);
  }

  /**
   * For each listed vertex `u`, the members of `nv` outside the
   * neighbourhood of `u`, less one; summed.
   */
  function FillEdgeCountOver<V>(g: Graph<V>, nv: set<V>, us: seq<V>): int {
    if us == [] then 0
    else FillEdgeCountOver(g, nv, us[..|us| - 1]) + (|nv - g.Neighbors(us[|us| - 1])| - 1)
  }

  /** The fill-edge count of `v`, summed over the listing `ns` of its neighbours. */
  function FillEdgeCount<V>(g: Graph<V>, v: V, ns: seq<V>): int
    requires Lists(ns, g.Neighbors(v))
  {
    FillEdgeCountOver(g, g.Neighbors(v), ns)
  }

  /**
   * Each neighbour counts itself and every neighbour it is not adjacent to,
   * less itself: the count is twice the fill, whatever the listing.
   */
  lemma FillEdgeCountIsTwiceFill<V>(g: Graph<V>, v: V, ns: seq<V>)
    requires g.IsSimple() && Lists(ns, g.Neighbors(v))
    ensures FillEdgeCount(g, v, ns) == 2 * Fill(g, v)
  {
    OverIsRowSum(g, g.Neighbors(v), ns, ns);
    RowSumTwice(g, ns);
    UpperPairCountIsFill(g, ns);
    assert (set b | b in ns) == g.Neighbors(v);
  }

  lemma {:induction false} OverIsRowSum<V>(g: Graph<V>, nv: set<V>, us: seq<V>, ns: seq<V>)
    requires g.IsSimple() && Lists(ns, nv) && nv <= g.vertices
    requires forall u | u in us :: u in nv
    ensures FillEdgeCountOver(g, nv, us) == RowSum(g, us, ns)
    decreases |us|
  {
    if us != [] {
      var u := us[|us| - 1];
      OverIsRowSum(g, nv, us[..|us| - 1], ns);
      Outside(g, nv, ns, u);
    }
  }

  /** The members of `nv` outside the neighbourhood of its member `u`: `u` itself and those not adjacent to it. */
  lemma Outside<V>(g: Graph<V>, nv: set<V>, ns: seq<V>, u: V)
    requires g.IsSimple() && Lists(ns, nv) && nv <= g.vertices && u in nv
    ensures |nv - g.Neighbors(u)| == NonAdjacentCount(g, u, ns) + 1
  {
    var others := set b | b in ns && b != u && !g.Adjacent(u, b);
    assert nv - g.Neighbors(u) == others + {u};
    assert u !in others;
    CountNonAdjacent(g, u, ns);
  }

  lemma {:induction false} CountNonAdjacent<V>(g: Graph<V>, a: V, t: seq<V>)
    requires NoDups(t)
    ensures |set b | b in t && b != a && !g.Adjacent(a, b)| == NonAdjacentCount(g, a, t)
    decreases |t|
  {
    if t != [] {
      var u := t[..|t| - 1];
      var z := t[|t| - 1];
      NoDupsDropLast(t);
      CountNonAdjacent(g, a, u);
      var su := set b | b in u && b != a && !g.Adjacent(a, b);
      assert t == u + [z];
      if z != a && !g.Adjacent(a, z) {
        assert (set b | b in t && b != a && !g.Adjacent(a, b)) == su + {z};
      } else {
        assert (set b | b in t && b != a && !g.Adjacent(a, b)) == su;
      }
    }
  }
}
