/**
 * The one-shot minimum-degree heuristic: the same lazily refreshed
 * degree queue as the stepping heuristic, run to the end on the caller's
 * graph, which it empties.
 */
module LegacyMinDegree {
  import opened Seqs
  import opened Graphs
  import opened Heaps
  import opened GraphExtensions
  import opened Replays
  import opened LegacyElimination
  import MinDegree

  /**
   * The ordering: every vertex of the graph exactly once, and the graph is
   * left empty.  The first `singles` vertices were eliminated one by one
   * with fill edges, none of them adjacent to all other vertices left at
   * its turn.  The rest, the vertices left then, were appended at once:
   * either a single last vertex, or all of them because one was adjacent
   * to all the others.  Each of the first `singles` vertices was popped
   * up to date with the smallest key of the queue at its turn, recorded in
   * `queues` and `stales`.
   */
  method Compute<V>(g: SimpleGraph<V>) returns (result: seq<V>, ghost singles: nat,
                                                ghost queues: seq<map<V, int>>, ghost stales: seq<set<V>>)
    requires g.Valid()
    modifies g
    ensures Lists(result, old(g.vertices))
    ensures g.vertices == {} && g.edges == {}
    ensures singles <= |result| && (old(g.vertices) != {} <==> singles < |result|)
    ensures NeverUniversal(old(g.Value()), result[..singles])
    ensures singles < |result| ==>
              var left := After(old(g.Value()), result[..singles], true);
              |left.vertices| == 1 || HasUniversal(left)
    ensures PoppedInTurn(old(g.Value()), result[..singles], queues, stales)
  {
    queues, stales := [], [];
    if g.vertices == {} {
      NoVerticesNoEdges(g.Value());
      return [], 0, queues, stales;
    }
    ghost var g0 := g.Value();
    var heap := QueueByDegree(g);
    var outdated: set<V> := {};
    result := [];
    ReplayedStart(g0);
    var stop := false;
    singles := 0;
    while !stop
      invariant !stop ==> g.Valid() && Running(g0, g.Value(), heap, outdated, result)
      invariant stop ==> g.vertices == {} && g.edges == {} && Finished(g0, result, singles)
      invariant !stop ==> PoppedInTurn(g0, result, queues, stales)
      invariant stop ==> PoppedInTurn(g0, result[..singles], queues, stales)
      decreases !stop, |g.vertices|, |outdated|
    {
      stop, heap, outdated, result, singles, queues, stales := Round(g, g0, heap, outdated, result, queues, stales);
    }
  }

  /**
   * The state of the loop: the queue holds every vertex left, each one not
   * marked outdated keyed by its degree, and the vertices handed out so far
   * were eliminated in turn, none of them adjacent to all others left.
   */
  ghost predicate Running<V>(g0: Graph<V>, c: Graph<V>, heap: map<V, int>, outdated: set<V>, result: seq<V>) {
    && heap.Keys == c.vertices && c.vertices != {}
    && MinDegree.KeysFresh(c, heap, outdated)
    && Replayed(g0, c, result) && NeverUniversal(g0, result)
  }

  /**
   * Popping `heap` on `h` yields `x`: the queue holds the vertices of `h`,
   * each one not marked outdated keyed by its degree, and `x` is not
   * marked and has the smallest key.
   */
  ghost predicate Popped<V>(h: Graph<V>, heap: map<V, int>, outdated: set<V>, x: V) {
    && heap.Keys == h.vertices && MinDegree.KeysFresh(h, heap, outdated)
    && x !in outdated && IsMin(heap, x)
  }

  /** At every turn of `o`, the vertex handed out was popped from that turn's queue on what was left of `g0`. */
  ghost predicate PoppedInTurn<V>(g0: Graph<V>, o: seq<V>, queues: seq<map<V, int>>, stales: seq<set<V>>) {
    && |queues| == |o| && |stales| == |o|
    && forall i | 0 <= i < |o| :: Popped(After(g0, o[..i], true), queues[i], stales[i], o[i])
  }

  /** A popped vertex has the smallest degree among the vertices left that are not marked outdated. */
  lemma PoppedLowest<V>(h: Graph<V>, heap: map<V, int>, outdated: set<V>, x: V)
    requires Popped(h, heap, outdated, x)
    ensures x in h.vertices && h.Degree(x) == heap[x]
    ensures forall w | w in h.vertices && w !in outdated :: h.Degree(x) <= h.Degree(w)
  {
  }

  /** Handing out a vertex popped on the working graph extends the trace of turns. */
  lemma PoppedSnoc<V>(g0: Graph<V>, c: Graph<V>, o: seq<V>, queues: seq<map<V, int>>, stales: seq<set<V>>,
                      heap: map<V, int>, outdated: set<V>, v: V)
    requires PoppedInTurn(g0, o, queues, stales) && Same(c, After(g0, o, true)) && Popped(c, heap, outdated, v)
    ensures PoppedInTurn(g0, o + [v], queues + [heap], stales + [outdated])
  {
    var left := After(g0, o, true);
    forall w | w in heap && w !in outdated ensures heap[w] == left.Degree(w) {
      SameNeighbors(c, left, w);
    }
    var o' := o + [v];
    forall i | 0 <= i < |o'| ensures Popped(After(g0, o'[..i], true), (queues + [heap])[i], (stales + [outdated])[i], o'[i]) {
      if i < |o| {
        assert o'[..i] == o[..i] && o'[i] == o[i];
      } else {
        assert o'[..i] == o;
      }
    }
  }

  /** What the run promises once it stops. */
  ghost predicate Finished<V>(g0: Graph<V>, result: seq<V>, singles: nat) {
    && Lists(result, g0.vertices)
    && singles < |result|
    && NeverUniversal(g0, result[..singles])
    && var left := After(g0, result[..singles], true);
       |left.vertices| == 1 || HasUniversal(left)
  }

  /**
   * One round of the loop: pops the smallest entry.  The last entry is
   * handed out and removed; an outdated one is unmarked and re-queued under
   * its current degree; one keyed |V| - 1 hands out all vertices left;
   * any other is handed out and eliminated.
   */
  method Round<V>(g: SimpleGraph<V>, ghost g0: Graph<V>, heap: map<V, int>, outdated: set<V>, result: seq<V>,
                  ghost queues: seq<map<V, int>>, ghost stales: seq<set<V>>)
    returns (stop: bool, heap': map<V, int>, outdated': set<V>, result': seq<V>, ghost singles: nat,
             ghost queues': seq<map<V, int>>, ghost stales': seq<set<V>>)
    requires g.Valid() && Running(g0, g.Value(), heap, outdated, result)
    requires PoppedInTurn(g0, result, queues, stales)
    modifies g
    ensures !stop ==> g.Valid() && Running(g0, g.Value(), heap', outdated', result')
    ensures !stop ==> |g.vertices| < old(|g.vertices|) || (g.vertices == old(g.vertices) && |outdated'| < |outdated|)
    ensures stop ==> g.vertices == {} && g.edges == {} && Finished(g0, result', singles)
    ensures !stop ==> PoppedInTurn(g0, result', queues', stales')
    ensures stop ==> PoppedInTurn(g0, result'[..singles], queues', stales')
  {
    var v, key, rest := DeleteMin(heap);
    singles := |result|;
    queues', stales' := queues, stales;
    if rest == map[] {
      LastFacts(g0, g.Value(), heap, outdated, result, v);
      result' := result + [v];
      var _ := g.RemoveVertex(v);
      NoVerticesNoEdges(g.Value());
      assert result'[..singles] == result;
      return true, rest, outdated, result', singles, queues', stales';
    }
    if v in outdated {
      heap' := rest[v := g.DegreeOf(v)];
      outdated' := outdated - {v};
      RequeueFacts(g0, g.Value(), heap, outdated, result, v);
      return false, heap', outdated', result, singles, queues', stales';
    }
    if key == |g.vertices| - 1 {
      var remaining := g.VertexList();
      BatchFacts(g0, g.Value(), heap, outdated, result, v, remaining);
      result' := result + remaining;
      g.RemoveAllVertices(remaining);
      NoVerticesNoEdges(g.Value());
      assert result'[..singles] == result;
      return true, rest, outdated, result', singles, queues', stales';
    }
    PoppedSnoc(g0, g.Value(), result, queues, stales, heap, outdated, v);
    result', outdated' := EliminateOne(g, g0, result, heap, outdated, v);
    return false, rest, outdated', result', singles, queues + [heap], stales + [outdated];
  }

  /** The last entry: one vertex is left, and handing it out finishes the run. */
  lemma LastFacts<V>(g0: Graph<V>, c: Graph<V>, heap: map<V, int>, outdated: set<V>, result: seq<V>, v: V)
    requires Running(g0, c, heap, outdated, result) && v in heap && heap - {v} == map[]
    ensures c.vertices == {v} && Finished(g0, result + [v], |result|)
  {
    assert heap.Keys == (heap - {v}).Keys + {v};
    LastLeft(g0, c, result, v);
    assert (result + [v])[..|result|] == result;
  }

  /** An outdated entry re-queued under its current degree keeps the loop's state. */
  lemma RequeueFacts<V>(g0: Graph<V>, c: Graph<V>, heap: map<V, int>, outdated: set<V>, result: seq<V>, v: V)
    requires Running(g0, c, heap, outdated, result) && v in heap && v in outdated
    ensures Running(g0, c, (heap - {v})[v := c.Degree(v)], outdated - {v}, result)
    ensures |outdated - {v}| < |outdated|
  {
    CardRemove(outdated, v);
  }

  /** An up-to-date vertex adjacent to all others: handing out all vertices left finishes the run. */
  lemma BatchFacts<V>(g0: Graph<V>, c: Graph<V>, heap: map<V, int>, outdated: set<V>, result: seq<V>, v: V, remaining: seq<V>)
    requires Running(g0, c, heap, outdated, result) && v in heap && v !in outdated
    requires heap[v] == |c.vertices| - 1 && Lists(remaining, c.vertices)
    ensures Finished(g0, result + remaining, |result|)
  {
    UniversalLeft(g0, c, result, v);
    HandOutRest(result, g0.vertices, c.vertices, remaining);
    assert (result + remaining)[..|result|] == result;
  }

  /**
   * Hands out `v` and eliminates it: marks its current neighbours outdated,
   * then runs the elimination step.  The keys of the vertices not marked
   * stay their degrees, since only the neighbours of `v` change.
   */
  method EliminateOne<V>(g: SimpleGraph<V>, ghost g0: Graph<V>, result: seq<V>, heap: map<V, int>, outdated: set<V>, v: V)
    returns (result': seq<V>, outdated': set<V>)
    requires g.Valid() && heap.Keys == g.vertices && MinDegree.KeysFresh(g.Value(), heap, outdated)
    requires Replayed(g0, g.Value(), result) && NeverUniversal(g0, result)
    requires v in heap && v !in outdated && heap[v] != |g.vertices| - 1
    modifies g
    ensures g.Valid() && (heap - {v}).Keys == g.vertices && g.vertices != {} && |g.vertices| < old(|g.vertices|)
    ensures MinDegree.KeysFresh(g.Value(), heap - {v}, outdated')
    ensures result' == result + [v] && outdated' == outdated + old(g.Value()).Neighbors(v)
    ensures Replayed(g0, g.Value(), result') && NeverUniversal(g0, result')
  {
    ghost var c := g.Value();
    var neighbors := g.NeighborListOf(v);
    outdated' := outdated + set u | u in neighbors;
    assert outdated' == outdated + c.Neighbors(v);
    result' := result + [v];
    ghost var ns := Eliminate(g, v);
    EliminateOneFacts(g0, c, result, heap, outdated, v, ns);
  }

  lemma EliminateOneFacts<V>(g0: Graph<V>, c: Graph<V>, result: seq<V>, heap: map<V, int>, outdated: set<V>, v: V, ns: seq<V>)
    requires heap.Keys == c.vertices && MinDegree.KeysFresh(c, heap, outdated)
    requires Replayed(g0, c, result) && NeverUniversal(g0, result)
    requires v in heap && v !in outdated && heap[v] != |c.vertices| - 1
    requires Lists(ns, c.Neighbors(v))
    ensures (c.vertices - {v}) != {} && |c.vertices - {v}| < |c.vertices|
    ensures MinDegree.KeysFresh(Eliminated(c, v, ns), heap - {v}, outdated + c.Neighbors(v))
    ensures Replayed(g0, Eliminated(c, v, ns), result + [v]) && NeverUniversal(g0, result + [v])
  {
    NeighborsBound(c, v);
    CardRemove(c.vertices, v);
    ReplayedStep(g0, c, result, v, ns);
    NeverUniversalSnoc(g0, result, v);
    MinDegree.FreshAfterElimination(c, heap, outdated, v, ns);
  }
}
