/**
 * The one-shot maximum-cardinality search.  An arbitrary first vertex is
 * removed, then the vertex with the smallest queued key is repeatedly
 * removed and put at the head of the ordering, the first vertex staying
 * at its tail.  Keys are a vertex's current degree minus its original
 * degree and are refreshed lazily, as in the stepping heuristic, so a
 * stale key can pick a vertex with fewer removed neighbours than another;
 * no edge is ever added, and the caller's graph is left empty.
 */
module LegacyMaxCardinality {
  import opened Seqs
  import opened Graphs
  import opened Heaps
  import opened Replays
  import opened LegacyElimination
  import opened MaxCardinality

  /**
   * The ordering: every vertex of the graph exactly once, the graph left
   * empty; it is the removal order `removed` reversed, so the first vertex
   * removed is last.  `keys` are the keys the vertices were removed under,
   * never positive; every vertex but the last was removed under minus the
   * number of its neighbours removed before it.  Every vertex but the
   * first was popped with the smallest key of the queue at its turn,
   * recorded in `queues` and `stales`.
   */
  method Compute<V>(g: SimpleGraph<V>) returns (result: seq<V>, ghost removed: seq<V>, ghost keys: seq<int>,
                                                ghost queues: seq<map<V, int>>, ghost stales: seq<set<V>>)
    requires g.Valid()
    modifies g
    ensures Lists(result, old(g.vertices))
    ensures g.vertices == {} && g.edges == {}
    ensures result == Reverse(removed) && |keys| == |removed|
    ensures forall i | 0 <= i < |keys| :: keys[i] <= 0
    ensures forall i | 0 <= i < |removed| - 1 :: keys[i] == -(RemovedBefore(old(g.Value()), removed[..i], removed[i]) as int)
    ensures PoppedInTurn(old(g.Value()), removed, keys, queues, stales)
  {
    if g.vertices == {} {
      NoVerticesNoEdges(g.Value());
      return [], [], [], [], [];
    }
    ghost var g0 := g.Value();
    var first :| first in g.vertices;
    if |g.vertices| == 1 {
      OnlyVertex(g.vertices, first);
      var _ := g.RemoveVertex(first);
      NoVerticesNoEdges(g.Value());
      result, removed, keys := [first], [first], [0];
      queues, stales := [map[]], [{}];
      assert Lists(result, g0.vertices);
      return;
    }
    result := [first];
    var originalDegrees := map v | v in g.vertices :: g.Value().Degree(v);
    var _ := g.RemoveVertex(first);
    originalDegrees := originalDegrees - {first};
    var heap := QueueByLoss(g, originalDegrees);
    var outdated: set<V> := {};
    removed, keys := [first], [0];
    queues, stales := [map[]], [{}];
    StartTrace(g0, first);
    StartFacts(g0, first, heap, originalDegrees);
    result, removed, keys, queues, stales := Search(g, g0, heap, outdated, originalDegrees, result, removed, keys, queues, stales);
  }

  /** The loop of the search: runs rounds until the queue is empty. */
  method Search<V>(g: SimpleGraph<V>, ghost g0: Graph<V>, heap: map<V, int>, outdated: set<V>, originalDegrees: map<V, int>,
                   result: seq<V>, ghost removed: seq<V>, ghost keys: seq<int>,
                   ghost queues: seq<map<V, int>>, ghost stales: seq<set<V>>)
    returns (result': seq<V>, ghost removed': seq<V>, ghost keys': seq<int>,
             ghost queues': seq<map<V, int>>, ghost stales': seq<set<V>>)
    requires g.Valid() && Trace(g0, g.Value(), removed, keys, result) && Queue(g0, g.Value(), heap, outdated, originalDegrees)
    requires PoppedInTurn(g0, removed, keys, queues, stales)
    modifies g
    ensures g.vertices == {} && g.edges == {} && Finished(g0, removed', keys', result')
    ensures PoppedInTurn(g0, removed', keys', queues', stales')
  {
    var heap, outdated, originalDegrees := heap, outdated, originalDegrees;
    result', removed', keys', queues', stales' := result, removed, keys, queues, stales;
    while true
      invariant g.Valid() && Trace(g0, g.Value(), removed', keys', result')
      invariant Queue(g0, g.Value(), heap, outdated, originalDegrees)
      invariant PoppedInTurn(g0, removed', keys', queues', stales')
      decreases |g.vertices|, |outdated|
    {
      var stop;
      stop, heap, outdated, originalDegrees, result', removed', keys', queues', stales' :=
        Round(g, g0, heap, outdated, originalDegrees, result', removed', keys', queues', stales');
      if stop {
        return;
      }
    }
  }

  lemma OnlyVertex<T>(s: set<T>, x: T)
    requires x in s && |s| == 1
    ensures s == {x}
  {
    CardRemove(s, x);
    assert s - {x} == {};
  }

  /** Queues every vertex under its current degree minus its original degree. */
  method QueueByLoss<V>(g: SimpleGraph<V>, originalDegrees: map<V, int>) returns (heap: map<V, int>)
    requires g.vertices <= originalDegrees.Keys
    ensures heap == map v | v in g.vertices :: g.Value().Degree(v) - originalDegrees[v]
  {
    ghost var gv := g.Value();
    var vs := g.VertexList();
    assert forall v | v in vs :: v in originalDegrees;
    heap := map[];
    var k := 0;
    while k < |vs|
      invariant 0 <= k <= |vs|
      invariant heap == map v | v in vs[..k] :: gv.Degree(v) - originalDegrees[v]
    {
      var v := vs[k];
      LossStep(gv, originalDegrees, vs, k, heap);
      heap := heap[v := g.DegreeOf(v) - originalDegrees[v]];
      k := k + 1;
    }
    assert vs[..k] == vs;
  }

  /** Queueing one more listed vertex extends the queue over the next prefix. */
  lemma LossStep<V>(gv: Graph<V>, od: map<V, int>, vs: seq<V>, k: nat, heap: map<V, int>)
    requires k < |vs| && forall v | v in vs :: v in od
    requires heap == map v | v in vs[..k] :: gv.Degree(v) - od[v]
    ensures heap[vs[k] := gv.Degree(vs[k]) - od[vs[k]]] == map v | v in vs[..k + 1] :: gv.Degree(v) - od[v]
  {
    assert vs[..k + 1] == vs[..k] + [vs[k]];
  }

  /**
   * The first `n` keys are minus the number of neighbours removed before
   * their vertex, and no key is positive.
   */
  ghost predicate Keyed<V>(g0: Graph<V>, removed: seq<V>, keys: seq<int>, n: int) {
    && |keys| == |removed| && n <= |removed|
    && (forall i | 0 <= i < |keys| :: keys[i] <= 0)
    && (forall i | 0 <= i < n :: keys[i] == -(RemovedBefore(g0, removed[..i], removed[i]) as int))
  }

  /** How many neighbours of `v` in `g0` are among `before`. */
  ghost function RemovedBefore<V>(g0: Graph<V>, before: seq<V>, v: V): nat {
    |g0.Neighbors(v) * (set u | u in before)|
  }

  /**
   * Removing `x` after `before` pops it from `heap`: the queue holds the
   * vertices of `g0` not removed yet, each one not marked outdated keyed by
   * minus the number of its neighbours removed, and `x` has the smallest
   * key.
   */
  ghost predicate Popped<V>(g0: Graph<V>, before: seq<V>, heap: map<V, int>, outdated: set<V>, x: V) {
    && heap.Keys == g0.vertices - (set u | u in before)
    && (forall u | u in heap && u !in outdated :: heap[u] == -(RemovedBefore(g0, before, u) as int))
    && IsMin(heap, x)
  }

  /** At every turn after the first, the vertex removed was popped under its key from that turn's queue. */
  ghost predicate PoppedInTurn<V>(g0: Graph<V>, removed: seq<V>, keys: seq<int>, queues: seq<map<V, int>>, stales: seq<set<V>>) {
    && |queues| == |removed| && |stales| == |removed| && |keys| == |removed|
    && forall i | 0 < i < |removed| ::
         Popped(g0, removed[..i], queues[i], stales[i], removed[i]) && queues[i][removed[i]] == keys[i]
  }

  /**
   * Every vertex removed but the first and the last had at least as many
   * neighbours removed before it as every vertex queued then and not
   * marked outdated.
   */
  lemma MostRemovedNeighbors<V>(g0: Graph<V>, removed: seq<V>, keys: seq<int>, queues: seq<map<V, int>>, stales: seq<set<V>>, i: int)
    requires PoppedInTurn(g0, removed, keys, queues, stales) && 0 < i < |removed| - 1
    requires keys[i] == -(RemovedBefore(g0, removed[..i], removed[i]) as int)
    ensures forall u | u in queues[i] && u !in stales[i] ::
              RemovedBefore(g0, removed[..i], u) <= RemovedBefore(g0, removed[..i], removed[i])
  {
    var heap := queues[i];
    forall u | u in heap && u !in stales[i]
      ensures RemovedBefore(g0, removed[..i], u) <= RemovedBefore(g0, removed[..i], removed[i])
    {
      assert heap[removed[i]] <= heap[u];
    }
  }

  /** Popping the smallest entry of the queue on the working graph is a pop after the vertices removed. */
  lemma PoppedNow<V>(g0: Graph<V>, c: Graph<V>, heap: map<V, int>, outdated: set<V>, originalDegrees: map<V, int>,
                     removed: seq<V>, v: V)
    requires g0.IsSimple() && InducedBy(g0, c) && Lists(removed, g0.vertices - c.vertices)
    requires Queue(g0, c, heap, outdated, originalDegrees) && IsMin(heap, v)
    ensures Popped(g0, removed, heap, outdated, v)
  {
    var before := set u | u in removed;
    assert heap.Keys == g0.vertices - before;
    forall u | u in heap && u !in outdated ensures heap[u] == -(RemovedBefore(g0, removed, u) as int) {
      InducedDegree(g0, c, u);
      assert g0.Neighbors(u) - c.vertices == g0.Neighbors(u) * before;
    }
  }

  /** A pop after the vertices removed extends the trace of turns. */
  lemma PoppedSnoc<V>(g0: Graph<V>, removed: seq<V>, keys: seq<int>, queues: seq<map<V, int>>, stales: seq<set<V>>,
                      heap: map<V, int>, outdated: set<V>, v: V)
    requires PoppedInTurn(g0, removed, keys, queues, stales) && Popped(g0, removed, heap, outdated, v)
    ensures PoppedInTurn(g0, removed + [v], keys + [heap[v]], queues + [heap], stales + [outdated])
  {
    var o := removed + [v];
    var ks := keys + [heap[v]];
    var qs := queues + [heap];
    var ss := stales + [outdated];
    forall i | 0 < i < |o| ensures Popped(g0, o[..i], qs[i], ss[i], o[i]) && qs[i][o[i]] == ks[i] {
      if i < |removed| {
        assert o[..i] == removed[..i] && o[i] == removed[i];
      } else {
        assert o[..i] == removed;
      }
    }
  }

  /**
   * The run so far: the working graph is what is left of `g0` after
   * removing the vertices of `removed`, each under its key, and the
   * ordering is the removal order reversed.
   */
  ghost predicate Trace<V>(g0: Graph<V>, c: Graph<V>, removed: seq<V>, keys: seq<int>, result: seq<V>) {
    && g0.IsSimple() && InducedBy(g0, c)
    && Lists(removed, g0.vertices - c.vertices)
    && Keyed(g0, removed, keys, |removed|)
    && result == Reverse(removed)
  }

  /**
   * The queue: it holds every vertex left, each key between the vertex's
   * current loss of degree and 0, exactly that loss when it is not marked
   * outdated.
   */
  ghost predicate Queue<V>(g0: Graph<V>, c: Graph<V>, heap: map<V, int>, outdated: set<V>, originalDegrees: map<V, int>) {
    && heap.Keys == c.vertices && c.vertices != {}
    && (forall u | u in heap :: u in originalDegrees && originalDegrees[u] == g0.Degree(u))
    && KeysBounded(g0, c, heap) && KeysFresh(g0, c, heap, outdated)
  }

  /** What the run promises once it stops. */
  ghost predicate Finished<V>(g0: Graph<V>, removed: seq<V>, keys: seq<int>, result: seq<V>) {
    && Lists(result, g0.vertices)
    && result == Reverse(removed)
    && Keyed(g0, removed, keys, |removed| - 1)
  }

  /** After the first removal the loop starts with every vertex left queued under minus its removed neighbours. */
  lemma StartFacts<V>(g0: Graph<V>, first: V, heap: map<V, int>, originalDegrees: map<V, int>)
    requires g0.IsSimple() && first in g0.vertices && |g0.vertices| > 1
    requires originalDegrees == (map v | v in g0.vertices :: g0.Degree(v)) - {first}
    requires heap == map v | v in g0.RemoveVertex(first).vertices :: g0.RemoveVertex(first).Degree(v) - originalDegrees[v]
    ensures Queue(g0, g0.RemoveVertex(first), heap, {}, originalDegrees)
  {
    var c := g0.RemoveVertex(first);
    InducedSelf(g0);
    InducedRemove(g0, g0, first);
    CardRemove(g0.vertices, first);
    assert c.vertices == g0.vertices - {first};
    assert heap.Keys == c.vertices;
    forall u | u in heap
      ensures u in originalDegrees && originalDegrees[u] == g0.Degree(u)
      ensures heap[u] == c.Degree(u) - g0.Degree(u) <= 0
    {
      assert u in g0.vertices && u != first;
      assert originalDegrees[u] == g0.Degree(u);
      assert heap[u] == c.Degree(u) - originalDegrees[u];
      InducedDegree(g0, c, u);
    }
    assert KeysBounded(g0, c, heap) && KeysFresh(g0, c, heap, {});
  }

  lemma StartTrace<V>(g0: Graph<V>, first: V)
    requires g0.IsSimple() && first in g0.vertices
    ensures Trace(g0, g0.RemoveVertex(first), [first], [0], [first])
  {
    var c := g0.RemoveVertex(first);
    assert [first][..0] == [];
    InducedSelf(g0);
    InducedRemove(g0, g0, first);
    assert g0.vertices - c.vertices == {first};
    var none: seq<V> := [];
    assert (set u | u in none) == {};
    assert RemovedBefore(g0, none, first) == 0;
  }

  /**
   * One round of the loop: pops the smallest entry.  The last entry is put
   * at the head and removed; an outdated one is unmarked and re-queued
   * under its current loss of degree; any other is put at the head, its
   * neighbours are marked outdated and it is removed.
   */
  method Round<V>(g: SimpleGraph<V>, ghost g0: Graph<V>, heap: map<V, int>, outdated: set<V>, originalDegrees: map<V, int>,
                  result: seq<V>, ghost removed: seq<V>, ghost keys: seq<int>,
                  ghost queues: seq<map<V, int>>, ghost stales: seq<set<V>>)
    returns (stop: bool, heap': map<V, int>, outdated': set<V>, originalDegrees': map<V, int>,
             result': seq<V>, ghost removed': seq<V>, ghost keys': seq<int>,
             ghost queues': seq<map<V, int>>, ghost stales': seq<set<V>>)
    requires g.Valid() && Trace(g0, g.Value(), removed, keys, result) && Queue(g0, g.Value(), heap, outdated, originalDegrees)
    requires PoppedInTurn(g0, removed, keys, queues, stales)
    modifies g
    ensures !stop ==> g.Valid() && Trace(g0, g.Value(), removed', keys', result')
    ensures !stop ==> Queue(g0, g.Value(), heap', outdated', originalDegrees')
    ensures !stop ==> |g.vertices| < old(|g.vertices|) || (g.vertices == old(g.vertices) && |outdated'| < |outdated|)
    ensures stop ==> g.vertices == {} && g.edges == {} && Finished(g0, removed', keys', result')
    ensures PoppedInTurn(g0, removed', keys', queues', stales')
  {
    var v, key, rest := DeleteMin(heap);
    queues', stales' := queues + [heap], stales + [outdated];
    if rest == map[] {
      TurnFacts(g0, g.Value(), heap, outdated, originalDegrees, removed, keys, result, queues, stales, v);
      result' := RemoveLast(g, g0, heap, result, removed, keys, v);
      return true, rest, outdated, originalDegrees, result', removed + [v], keys + [key], queues', stales';
    }
    if v in outdated {
      heap', outdated' := Requeue(g, g0, heap, outdated, originalDegrees, v);
      return false, heap', outdated', originalDegrees, result, removed, keys, queues, stales;
    }
    TurnFacts(g0, g.Value(), heap, outdated, originalDegrees, removed, keys, result, queues, stales, v);
    outdated', originalDegrees', result' := Prepend(g, g0, heap, outdated, originalDegrees, result, removed, keys, v);
    return false, rest, outdated', originalDegrees', result', removed + [v], keys + [key], queues', stales';
  }

  /** Removing the popped `v` extends the trace of turns. */
  lemma TurnFacts<V>(g0: Graph<V>, c: Graph<V>, heap: map<V, int>, outdated: set<V>, originalDegrees: map<V, int>,
                     removed: seq<V>, keys: seq<int>, result: seq<V>, queues: seq<map<V, int>>, stales: seq<set<V>>, v: V)
    requires Trace(g0, c, removed, keys, result) && Queue(g0, c, heap, outdated, originalDegrees) && IsMin(heap, v)
    requires PoppedInTurn(g0, removed, keys, queues, stales)
    ensures PoppedInTurn(g0, removed + [v], keys + [heap[v]], queues + [heap], stales + [outdated])
  {
    PoppedNow(g0, c, heap, outdated, originalDegrees, removed, v);
    PoppedSnoc(g0, removed, keys, queues, stales, heap, outdated, v);
  }

  /** Re-queues the outdated entry `v` under its current loss of degree and unmarks it. */
  method Requeue<V>(g: SimpleGraph<V>, ghost g0: Graph<V>, heap: map<V, int>, outdated: set<V>, originalDegrees: map<V, int>, v: V)
    returns (heap': map<V, int>, outdated': set<V>)
    requires g.Valid() && InducedBy(g0, g.Value()) && Queue(g0, g.Value(), heap, outdated, originalDegrees)
    requires v in heap && v in outdated
    ensures Queue(g0, g.Value(), heap', outdated', originalDegrees) && |outdated'| < |outdated|
  {
    ghost var c := g.Value();
    var d := g.DegreeOf(v);
    InducedDegree(g0, c, v);
    StaleFacts(g0, c, heap, outdated, originalDegrees, v);
    heap' := (heap - {v})[v := d - originalDegrees[v]];
    outdated' := outdated - {v};
  }

  /** Puts `v`, the last entry, at the head of the ordering and removes it. */
  method RemoveLast<V>(g: SimpleGraph<V>, ghost g0: Graph<V>, heap: map<V, int>,
                       result: seq<V>, ghost removed: seq<V>, ghost keys: seq<int>, v: V)
    returns (result': seq<V>)
    requires g.Valid() && Trace(g0, g.Value(), removed, keys, result)
    requires heap.Keys == g.vertices && v in heap && heap - {v} == map[] && heap[v] <= 0
    modifies g
    ensures g.vertices == {} && g.edges == {} && Finished(g0, removed + [v], keys + [heap[v]], result')
  {
    LastFacts(g0, g.Value(), heap, removed, keys, result, v);
    result' := [v] + result;
    var _ := g.RemoveVertex(v);
    NoVerticesNoEdges(g.Value());
  }

  /**
   * Puts `v`, the smallest entry and not outdated, at the head of the
   * ordering, removes it, and marks its neighbours outdated.
   */
  method Prepend<V>(g: SimpleGraph<V>, ghost g0: Graph<V>, heap: map<V, int>, outdated: set<V>, originalDegrees: map<V, int>,
                    result: seq<V>, ghost removed: seq<V>, ghost keys: seq<int>, v: V)
    returns (outdated': set<V>, originalDegrees': map<V, int>, result': seq<V>)
    requires g.Valid() && Trace(g0, g.Value(), removed, keys, result) && Queue(g0, g.Value(), heap, outdated, originalDegrees)
    requires v in heap && v !in outdated && heap - {v} != map[]
    modifies g
    ensures g.Valid() && Trace(g0, g.Value(), removed + [v], keys + [heap[v]], result')
    ensures Queue(g0, g.Value(), heap - {v}, outdated', originalDegrees')
    ensures |g.vertices| < old(|g.vertices|)
  {
    ghost var c := g.Value();
    result' := [v] + result;
    var neighbors := g.NeighborListOf(v);
    outdated' := outdated + set u | u in neighbors;
    originalDegrees' := originalDegrees - {v};
    PrependFacts(g0, c, heap, outdated, originalDegrees, removed, keys, result, v, neighbors);
    var _ := g.RemoveVertex(v);
  }

  /** The state after `Prepend`, stated on values: the run is extended and the queue kept. */
  lemma PrependFacts<V>(g0: Graph<V>, c: Graph<V>, heap: map<V, int>, outdated: set<V>, originalDegrees: map<V, int>,
                        removed: seq<V>, keys: seq<int>, result: seq<V>, v: V, neighbors: seq<V>)
    requires Trace(g0, c, removed, keys, result) && Queue(g0, c, heap, outdated, originalDegrees)
    requires v in heap && v !in outdated && heap - {v} != map[] && Lists(neighbors, c.Neighbors(v))
    ensures Trace(g0, c.RemoveVertex(v), removed + [v], keys + [heap[v]], [v] + result)
    ensures Queue(g0, c.RemoveVertex(v), heap - {v}, outdated + (set u | u in neighbors), originalDegrees - {v})
    ensures |c.RemoveVertex(v).vertices| < |c.vertices|
  {
    assert (set u | u in neighbors) == c.Neighbors(v);
    assert c.IsSimple();
    QueuePrepend(g0, c, heap, outdated, originalDegrees, v);
    TracePrepend(g0, c, removed, keys, result, v, heap[v]);
  }

  /** The last entry: one vertex is left, and putting it at the head finishes the run. */
  lemma LastFacts<V>(g0: Graph<V>, c: Graph<V>, heap: map<V, int>, removed: seq<V>, keys: seq<int>, result: seq<V>, v: V)
    requires c.vertices <= g0.vertices && Lists(removed, g0.vertices - c.vertices)
    requires Keyed(g0, removed, keys, |removed|) && result == Reverse(removed)
    requires heap.Keys == c.vertices && v in heap && heap - {v} == map[] && heap[v] <= 0
    ensures c.vertices == {v}
    ensures Finished(g0, removed + [v], keys + [heap[v]], [v] + result)
  {
    OnlyKey(heap, v);
    ReverseSnoc(removed, v);
    assert Lists([v], c.vertices);
    HandOutRest(removed, g0.vertices, c.vertices, [v]);
    ReverseLists(removed + [v], g0.vertices);
    KeyedSnoc(g0, removed, keys, v, heap[v], false);
  }

  /** A map that is empty once `v` is taken out has `v` as its only key. */
  lemma OnlyKey<K, X>(m: map<K, X>, v: K)
    requires v in m && m - {v} == map[]
    ensures m.Keys == {v}
  {
    assert m.Keys == (m - {v}).Keys + {v};
  }

  /** An outdated entry re-queued under its current loss of degree keeps the queue's invariant. */
  lemma StaleFacts<V>(g0: Graph<V>, c: Graph<V>, heap: map<V, int>, outdated: set<V>, originalDegrees: map<V, int>, v: V)
    requires Queue(g0, c, heap, outdated, originalDegrees) && v in heap && v in outdated && c.Degree(v) <= g0.Degree(v)
    ensures v in originalDegrees
    ensures Queue(g0, c, (heap - {v})[v := c.Degree(v) - originalDegrees[v]], outdated - {v}, originalDegrees)
    ensures |outdated - {v}| < |outdated|
  {
    CardRemove(outdated, v);
  }

  /**
   * Removing an up-to-date vertex that is not the last: the neighbours it
   * loses are marked outdated, every other key is unaffected, and no key
   * rises above 0.
   */
  lemma QueuePrepend<V>(g0: Graph<V>, c: Graph<V>, heap: map<V, int>, outdated: set<V>, originalDegrees: map<V, int>, v: V)
    requires c.IsSimple() && Queue(g0, c, heap, outdated, originalDegrees)
    requires v in heap && heap - {v} != map[]
    ensures Queue(g0, c.RemoveVertex(v), heap - {v}, outdated + c.Neighbors(v), originalDegrees - {v})
    ensures |c.RemoveVertex(v).vertices| < |c.vertices|
  {
    var c' := c.RemoveVertex(v);
    CardRemove(c.vertices, v);
    forall u | u in heap - {v}
      ensures c'.Degree(u) - g0.Degree(u) <= (heap - {v})[u] <= 0
      ensures u !in outdated + c.Neighbors(v) ==> (heap - {v})[u] == c'.Degree(u) - g0.Degree(u)
    {
      RemovedDegree(c, v, u);
    }
    assert (heap - {v}).Keys != {} by {
      var u :| u in heap - {v};
    }
  }

  /** Removing `v` lowers no degree, and leaves the degree of a non-neighbour as it was. */
  lemma RemovedDegree<V>(c: Graph<V>, v: V, u: V)
    requires c.IsSimple() && u != v
    ensures c.RemoveVertex(v).Degree(u) <= c.Degree(u)
    ensures u !in c.Neighbors(v) ==> c.RemoveVertex(v).Degree(u) == c.Degree(u)
  {
    var c' := c.RemoveVertex(v);
    RemoveVertexNeighbors(c, v, u);
    SubsetCard(c'.Neighbors(u), c.Neighbors(u));
    if u !in c.Neighbors(v) {
      assert v !in c.Neighbors(u);
      assert c'.Neighbors(u) == c.Neighbors(u);
    }
  }

  /** Removing an up-to-date vertex under its key extends the run by one turn. */
  lemma TracePrepend<V>(g0: Graph<V>, c: Graph<V>, removed: seq<V>, keys: seq<int>, result: seq<V>, v: V, k: int)
    requires Trace(g0, c, removed, keys, result) && v in c.vertices && k == c.Degree(v) - g0.Degree(v)
    ensures Trace(g0, c.RemoveVertex(v), removed + [v], keys + [k], [v] + result)
  {
    InducedRemove(g0, c, v);
    InducedDegree(g0, c, v);
    assert g0.Neighbors(v) - c.vertices == g0.Neighbors(v) * (set u | u in removed);
    HandOut(removed, g0.vertices, c.vertices, v);
    ReverseSnoc(removed, v);
    KeyedSnoc(g0, removed, keys, v, k, true);
  }

  /** One more key: exact when `exact`, and never positive. */
  lemma KeyedSnoc<V>(g0: Graph<V>, removed: seq<V>, keys: seq<int>, v: V, k: int, exact: bool)
    requires Keyed(g0, removed, keys, |removed|) && k <= 0
    requires exact ==> k == -(RemovedBefore(g0, removed, v) as int)
    ensures Keyed(g0, removed + [v], keys + [k], if exact then |removed| + 1 else |removed|)
  {
    var o := removed + [v];
    var ks := keys + [k];
    forall i | 0 <= i < (if exact then |removed| + 1 else |removed|)
      ensures ks[i] == -(RemovedBefore(g0, o[..i], o[i]) as int)
    {
      if i < |removed| {
        assert o[..i] == removed[..i] && o[i] == removed[i] && ks[i] == keys[i];
      } else {
        assert o[..i] == removed;
      }
    }
  }
}
