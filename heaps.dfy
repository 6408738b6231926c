/**
 * The priority queue the heuristics use.  Every heuristic inserts a vertex
 * only when it has no entry, so the queue holds at most one entry per
 * vertex and is modelled as a map from vertex to key.  Delete-min hands out
 * some entry of smallest key; which one of several entries with equal keys
 * comes out is not specified and is not modelled.
 */
module Heaps {

  /** `v` has an entry in `q` and no entry of `q` has a smaller key. */
  predicate IsMin<V>(q: map<V, int>, v: V) {
    v in q && forall u | u in q :: q[v] <= q[u]
  }

  lemma {:induction false} MinExists<V>(q: map<V, int>)
    requires q != map[]
    ensures exists v :: IsMin(q, v)
    decreases |q|
  {
    var v :| v in q;
    var rest := q - {v};
    assert |rest| == |q| - 1;
    if rest != map[] {
      MinExists(rest);
      var m :| IsMin(rest, m);
      forall u | u in q && u != v ensures u in rest {
      }
      if rest[m] <= q[v] {
        assert IsMin(q, m);
      } else {
        assert IsMin(q, v);
      }
    } else {
      assert forall u | u in q :: u == v;
      assert IsMin(q, v);
    }
  }

  /** Removes an entry of smallest key and returns its vertex and key. */
  method DeleteMin<V(==)>(q: map<V, int>) returns (v: V, key: int, rest: map<V, int>)
    requires q != map[]
    ensures IsMin(q, v) && key == q[v]
    ensures rest == q - {v}
  {
    MinExists(q);
    v :| IsMin(q, v);
    key := q[v];
    rest := q - {v};
  }
}
