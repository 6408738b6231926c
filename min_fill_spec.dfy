/**
 * What the minimum-fill heuristic keeps and computes, stated on graph
 * values: its two caches and what keeps them exact across an elimination,
 * and the outcome of one scan over the vertices.
 */
module MinFillSpec {
  import opened Wrappers
  import opened Seqs
  import opened Graphs
  import opened GraphExtensions
  import opened Fills
  import opened EliminationResults

  /** Every cached neighbour set belongs to a vertex and is its current neighbour set. */
  ghost predicate NeighborsCached<V>(g: Graph<V>, m: map<V, set<V>>) {
    m.Keys <= g.vertices && forall v {:trigger m[v]} | v in m :: m[v] == g.Neighbors(v)
  }

  /** Every cached fill count of a vertex is its current fill. */
  ghost predicate FillsCached<V>(g: Graph<V>, f: map<V, int>) {
    forall v {:trigger f[v]} | v in f && v in g.vertices :: f[v] == Fill(g, v)
  }

  /** The vertices within distance two of `x`, other than `x`: the only ones whose fill eliminating `x` can change. */
  ghost function WithinTwo<V>(g: Graph<V>, x: V): set<V> {
    (g.Neighbors(x) + set a, w | a in g.Neighbors(x) && w in g.Neighbors(a) :: w) - {x}
  }

  /**
   * The vertices whose neighbour sets inspecting `v` may cache: `v`, and its
   * neighbours when it has two or more (the last listed neighbour of a vertex
   * is never looked up, so a vertex with one neighbour caches nothing else).
   */
  ghost function Inspects<V>(g: Graph<V>, v: V): set<V> {
    {v} + (if |g.Neighbors(v)| >= 2 then g.Neighbors(v) else {})
  }

  /** Whether inspecting one of the first `k` vertices of `order` may cache the set of `u`. */
  ghost predicate InspectedUpTo<V>(g: Graph<V>, order: seq<V>, k: nat, u: V)
    requires k <= |order|
  {
    k > 0 && (InspectedUpTo(g, order, k - 1, u) || u in Inspects(g, order[k - 1]))
  }

  /** A listed neighbour's cached set after eliminating `x`: without `x`, with the listed neighbours, without itself. */
  function Updated<V>(m: map<V, set<V>>, x: V, listed: set<V>, u: V): set<V>
    requires u in m
  {
    ((m[u] - {x}) + listed) - {u}
  }

  /** The neighbour caches after updating those of the vertices in `pre`. */
  ghost function UpdatedMap<V>(m: map<V, set<V>>, x: V, listed: set<V>, pre: seq<V>): map<V, set<V>> {
    map u | u in m :: if u in pre then Updated(m, x, listed, u) else m[u]
  }

  /** The fill caches dropped after updating the cached sets of the neighbours in `pre`: theirs and their new neighbours'. */
  ghost function Dropped<V>(m: map<V, set<V>>, x: V, listed: set<V>, pre: seq<V>): set<V>
    requires forall u | u in pre :: u in m
  {
    if pre == [] then {}
    else
      var u := pre[|pre| - 1];
      Dropped(m, x, listed, pre[..|pre| - 1]) + {u} + Updated(m, x, listed, u)
  }

  /** One more updated neighbour: its cached set is replaced, and it and its new neighbours are dropped. */
  lemma UpdateStep<V>(m: map<V, set<V>>, f: map<V, int>, x: V, listed: set<V>, ns: seq<V>, k: nat)
    requires k < |ns| && NoDups(ns) && forall u | u in ns[..k + 1] :: u in m
    ensures UpdatedMap(m, x, listed, ns[..k + 1]) == UpdatedMap(m, x, listed, ns[..k])[ns[k] := Updated(m, x, listed, ns[k])]
    ensures f - Dropped(m, x, listed, ns[..k + 1]) == f - Dropped(m, x, listed, ns[..k]) - {ns[k]} - Updated(m, x, listed, ns[k])
  {
    var pre := ns[..k + 1];
    assert pre[..k] == ns[..k] && pre[k] == ns[k];
    assert ns[k] !in ns[..k];
  }

  /** A vertex is dropped exactly when it is one of the updated neighbours or in one of their updated sets. */
  lemma {:induction false} DroppedMembers<V>(m: map<V, set<V>>, x: V, listed: set<V>, pre: seq<V>, w: V)
    requires forall u | u in pre :: u in m
    ensures w in Dropped(m, x, listed, pre) <==> w in pre || exists u | u in pre :: w in Updated(m, x, listed, u)
  {
    if pre != [] {
      var init := pre[..|pre| - 1];
      assert pre == init + [pre[|pre| - 1]];
      DroppedMembers(m, x, listed, init, w);
    }
  }

  /** With exact neighbour caches, the fill caches dropped for all neighbours of `x` are those within distance two of `x`. */
  lemma DroppedIsWithinTwo<V>(g: Graph<V>, m: map<V, set<V>>, x: V, ns: seq<V>)
    requires g.IsSimple() && x in g.vertices && Lists(ns, g.Neighbors(x))
    requires forall u | u in ns :: u in m && m[u] == g.Neighbors(u)
    ensures Dropped(m, x, (set u | u in ns), ns) == WithinTwo(g, x)
  {
    NeighborsBound(g, x);
    var listed := set u | u in ns;
    forall w | w in Dropped(m, x, listed, ns) ensures w in WithinTwo(g, x) {
      DroppedMembers(m, x, listed, ns, w);
      if w !in ns {
        var a :| a in ns && w in Updated(m, x, listed, a);
        if w !in listed {
          assert a in g.Neighbors(x) && w in g.Neighbors(a) && w != x;
        }
      }
    }
    forall w | w in WithinTwo(g, x) ensures w in Dropped(m, x, listed, ns) {
      DroppedMembers(m, x, listed, ns, w);
      if w !in g.Neighbors(x) {
        var a :| a in g.Neighbors(x) && w in g.Neighbors(a);
        NeighborsBound(g, a);
        assert a in ns && w in Updated(m, x, listed, a);
      }
    }
  }

  /**
   * The caches once every listed neighbour of `x` was updated: with `x`'s
   * set dropped they are exact for the graph after the step.
   */
  lemma CachedStep<V>(g0: Graph<V>, x: V, ns: seq<V>, m0: map<V, set<V>>, f0: map<V, int>,
                      m1: map<V, set<V>>, f1: map<V, int>, stopped: nat)
    requires g0.IsSimple() && x in g0.vertices && Lists(ns, g0.Neighbors(x))
    requires NeighborsCached(g0, m0) && FillsCached(g0, f0) && stopped == |ns|
    requires forall u | u in ns[..stopped] :: u in m0
    requires m1 == UpdatedMap(m0, x, (set u | u in ns), ns[..stopped])
    requires f1 == f0 - Dropped(m0, x, (set u | u in ns), ns[..stopped])
    ensures NeighborListFor(g0, x, ns)
    ensures m1 - {x} == UpdatedMap(m0, x, g0.Neighbors(x), ns) - {x}
    ensures f1 == f0 - WithinTwo(g0, x)
    ensures Eliminated(g0, x, ns).IsSimple()
    ensures NeighborsCached(Eliminated(g0, x, ns), m1 - {x}) && FillsCached(Eliminated(g0, x, ns), f1)
  {
    assert ns[..stopped] == ns;
    assert (set u | u in ns) == g0.Neighbors(x);
    NeighborsBound(g0, x);
    DroppedIsWithinTwo(g0, m0, x, ns);
    EliminatedIsSimple(g0, x, ns);
    CachesAfterElimination(g0, x, ns, m0, m1 - {x}, f1, f0);
  }

  /**
   * After the cache update and the elimination step, the neighbour caches
   * are exact again and every fill cache that survived is still right.
   */
  lemma CachesAfterElimination<V>(g: Graph<V>, x: V, ns: seq<V>, m0: map<V, set<V>>, m1: map<V, set<V>>, f1: map<V, int>, f0: map<V, int>)
    requires g.IsSimple() && x in g.vertices && Lists(ns, g.Neighbors(x))
    requires NeighborsCached(g, m0) && FillsCached(g, f0)
    requires m1 == UpdatedMap(m0, x, (set u | u in ns), ns) - {x}
    requires f1 == f0 - WithinTwo(g, x)
    ensures NeighborsCached(Eliminated(g, x, ns), m1)
    ensures FillsCached(Eliminated(g, x, ns), f1)
  {
    NeighborsBound(g, x);
    var e := Eliminated(g, x, ns);
    forall u | u in m1 ensures u in e.vertices && m1[u] == e.Neighbors(u) {
      EliminatedNeighbors(g, x, ns, u);
    }
    forall w | w in f1 && w in e.vertices ensures f1[w] == Fill(e, w) {
      FillUnaffected(g, x, ns, w);
    }
  }

  /** A vertex farther than two steps from `x` keeps its neighbours and its fill when `x` is eliminated. */
  lemma FillUnaffected<V>(g: Graph<V>, x: V, ns: seq<V>, w: V)
    requires g.IsSimple() && x in g.vertices && Lists(ns, g.Neighbors(x))
    requires w in g.vertices && w != x && w !in WithinTwo(g, x)
    ensures Eliminated(g, x, ns).Neighbors(w) == g.Neighbors(w)
    ensures Fill(Eliminated(g, x, ns), w) == Fill(g, w)
  {
    NeighborsBound(g, x);
    EliminatedNeighbors(g, x, ns, w);
    var e := Eliminated(g, x, ns);
    var nw := g.Neighbors(w);
    forall a, b | a in nw && b in nw ensures e.Adjacent(a, b) == g.Adjacent(a, b) {
      EliminatedAdjacent(g, x, ns, a, b);
      assert a in ns ==> a in g.Neighbors(x) && w in g.Neighbors(a);
    }
    assert FillPairs(e, nw) == FillPairs(g, nw);
  }

  /** The best vertex found so far: the result to hand out and its fill. */
  datatype Candidate<V> = Candidate(vertex: V, degree: int, fill: int)

  /** A candidate together with its position in the scan order. */
  function WithPosition<V>(best: Option<Candidate<V>>, at: nat): Option<(Candidate<V>, nat)> {
    if best.None? then None else Some((best.value, at))
  }

  /**
   * How a scan ends: the result handed out, the number of vertices of the
   * order inspected, and the position of the vertex the result names (of the
   * vertex that ended the run, for a final append).
   */
  datatype Outcome<V> = Outcome(result: EliminationResult<V>, scanned: nat, at: nat)

  /**
   * The scan of `order` from position `k` on with the candidate `best`: a
   * vertex with |V| - 1 neighbours ends the run with all vertices, a vertex
   * of fill 0 is handed out at once, any other vertex becomes the candidate
   * when its fill is strictly smaller, and at the end of the order the
   * candidate is handed out.
   */
  ghost function Scan<V>(g: Graph<V>, order: seq<V>, k: nat, best: Option<(Candidate<V>, nat)>): Outcome<V>
    requires k <= |order|
    decreases |order| - k
  {
    if k == |order| then
      if best.None? then Outcome(Empty, k, 0)
      else Outcome(VertexAppend(best.value.0.vertex, best.value.0.degree), k, best.value.1)
    else
      var v := order[k];
      var c := Candidate(v, g.Degree(v), Fill(g, v));
      if c.degree == |g.vertices| - 1 then Outcome(FinalAppend(g.vertices), k + 1, k)
      else if c.fill == 0 then Outcome(VertexAppend(v, c.degree), k + 1, k)
      else if best.None? || c.fill < best.value.0.fill then Scan(g, order, k + 1, Some((c, k)))
      else Scan(g, order, k + 1, best)
  }

  /**
   * The scan state after the first `k` vertices without stopping: none had
   * |V| - 1 neighbours and each had a positive fill, and the candidate is
   * the first of least fill among them, with its degree and fill.
   */
  ghost predicate Scanned<V>(g: Graph<V>, order: seq<V>, k: nat, best: Option<(Candidate<V>, nat)>) {
    && k <= |order|
    && (forall p | 0 <= p < k :: g.Degree(order[p]) != |g.vertices| - 1 && Fill(g, order[p]) > 0)
    && (best.None? <==> k == 0)
    && (best.Some? ==>
          var (c, at) := best.value;
          && at < k && order[at] == c.vertex
          && c.degree == g.Degree(c.vertex) && c.fill == Fill(g, c.vertex)
          && (forall p | 0 <= p < k :: c.fill <= Fill(g, order[p]))
          && (forall p | 0 <= p < at :: c.fill < Fill(g, order[p])))
  }

  /**
   * How a scan from the `k`-th vertex with candidate `best` ended in `o`:
   * with nothing only at the end of the order without a candidate, with all
   * vertices once a vertex adjacent to every other is met; every inspected
   * vertex but the last neither ended the run nor had fill 0.
   */
  ghost predicate ScanEndsAs<V>(g: Graph<V>, order: seq<V>, k: nat, best: Option<(Candidate<V>, nat)>, o: Outcome<V>) {
    && k <= o.scanned <= |order| && !o.result.VertexPrepend?
    && (forall p | 0 <= p < o.scanned - 1 :: g.Degree(order[p]) != |g.vertices| - 1 && Fill(g, order[p]) > 0)
    && (o.result.Empty? <==> k == |order| && best.None?)
    && (o.result.FinalAppend? ==>
          && o.scanned >= 1 && o.at == o.scanned - 1 && o.result.vertices == g.vertices
          && g.Degree(order[o.at]) == |g.vertices| - 1)
  }

  /**
   * A single vertex handed out by `o` is the first of least fill among the
   * inspected ones, with its degree, and has fill 0 when the scan stopped
   * early.
   */
  ghost predicate ScanChoosesAs<V>(g: Graph<V>, order: seq<V>, o: Outcome<V>) {
    o.result.VertexAppend? ==>
      var v := o.result.vertex;
      && o.at < o.scanned <= |order| && v == order[o.at] && o.result.degree == g.Degree(v)
      && (forall p | 0 <= p < o.scanned :: Fill(g, v) <= Fill(g, order[p]))
      && (forall p | 0 <= p < o.at :: Fill(g, v) < Fill(g, order[p]))
      && (o.scanned < |order| ==> Fill(g, v) == 0)
  }

  /**
   * How a scan from a well-formed state ends: nothing only at the end of the
   * order without a candidate, all vertices once a vertex adjacent to every
   * other is met.  Every inspected vertex but the last neither ended the run
   * nor had fill 0.
   */
  lemma {:induction false} ScanEnds<V>(g: Graph<V>, order: seq<V>, k: nat, best: Option<(Candidate<V>, nat)>)
    requires Scanned(g, order, k, best)
    decreases |order| - k
    ensures ScanEndsAs(g, order, k, best, Scan(g, order, k, best))
  {
    if k < |order| {
      var v := order[k];
      var c := Candidate(v, g.Degree(v), Fill(g, v));
      if c.degree != |g.vertices| - 1 && c.fill != 0 {
        var next := if best.None? || c.fill < best.value.0.fill then Some((c, k)) else best;
        ScannedStep(g, order, k, best);
        ScanEnds(g, order, k + 1, next);
      }
    }
  }

  /**
   * Which vertex a scan from a well-formed state hands out: the first vertex
   * of least fill among those inspected, with its degree, which is a vertex
   * of fill 0 when the scan stopped early.
   */
  lemma {:induction false} ScanChoice<V>(g: Graph<V>, order: seq<V>, k: nat, best: Option<(Candidate<V>, nat)>)
    requires Scanned(g, order, k, best)
    decreases |order| - k
    ensures ScanChoosesAs(g, order, Scan(g, order, k, best))
  {
    if k < |order| {
      var v := order[k];
      var c := Candidate(v, g.Degree(v), Fill(g, v));
      if c.degree != |g.vertices| - 1 && c.fill != 0 {
        var next := if best.None? || c.fill < best.value.0.fill then Some((c, k)) else best;
        ScannedStep(g, order, k, best);
        ScanChoice(g, order, k + 1, next);
      }
    }
  }

  /** Inspecting one more vertex that neither ends the run nor has fill 0 keeps the scan state well formed. */
  lemma ScannedStep<V>(g: Graph<V>, order: seq<V>, k: nat, best: Option<(Candidate<V>, nat)>)
    requires Scanned(g, order, k, best) && k < |order|
    requires g.Degree(order[k]) != |g.vertices| - 1 && Fill(g, order[k]) != 0
    ensures var c := Candidate(order[k], g.Degree(order[k]), Fill(g, order[k]));
            Scanned(g, order, k + 1, if best.None? || c.fill < best.value.0.fill then Some((c, k)) else best)
  {
  }

  /**
   * A scan over a listing of the vertex set hands out nothing exactly for the
   * empty graph, all vertices only when some vertex is adjacent to every
   * other, and otherwise a vertex of least fill in the whole graph with its
   * degree, the first such vertex in scan order.
   */
  ghost predicate LeastFillOutcome<V>(g: Graph<V>, order: seq<V>, o: Outcome<V>) {
    && ScanEndsAs(g, order, 0, None, o) && ScanChoosesAs(g, order, o)
    && (o.result.Empty? <==> g.vertices == {})
    && (o.result.FinalAppend? ==> exists v | v in g.vertices :: g.Degree(v) == |g.vertices| - 1)
    && (o.result.VertexAppend? ==>
          && o.result.vertex in g.vertices
          && forall u | u in g.vertices :: Fill(g, o.result.vertex) <= Fill(g, u))
  }

  /** The scan MinFill runs over a listing of the vertex set ends as `LeastFillOutcome` says. */
  lemma ScanMinimal<V>(g: Graph<V>, order: seq<V>)
    requires Lists(order, g.vertices)
    ensures LeastFillOutcome(g, order, Scan(g, order, 0, None))
  {
    var o := Scan(g, order, 0, None);
    ScanEnds(g, order, 0, None);
    ScanChoice(g, order, 0, None);
    ListedEmpty(order, g.vertices);
    ListedOutcome(g, order, o);
  }

  /**
   * The scan from the start state ended in `o`, over an order that covers
   * exactly the vertex set.
   */
  ghost predicate ListedScan<V>(g: Graph<V>, order: seq<V>, o: Outcome<V>) {
    && (forall x | x in order :: x in g.vertices) && (forall x | x in g.vertices :: x in order)
    && (|order| == 0 <==> g.vertices == {})
    && ScanEndsAs(g, order, 0, None, o) && ScanChoosesAs(g, order, o)
  }

  /** What the ends of a scan from the start state mean once the order lists the whole vertex set. */
  lemma ListedOutcome<V>(g: Graph<V>, order: seq<V>, o: Outcome<V>)
    requires ListedScan(g, order, o)
    ensures LeastFillOutcome(g, order, o)
  {
    match o.result
    case FinalAppend(_) => ListedBatch(g, order, o);
    case VertexAppend(_, _) => ListedVertex(g, order, o);
    case _ =>
  }

  /** A batch is handed out only when some vertex is adjacent to every other. */
  lemma ListedBatch<V>(g: Graph<V>, order: seq<V>, o: Outcome<V>)
    requires ListedScan(g, order, o) && o.result.FinalAppend?
    ensures LeastFillOutcome(g, order, o)
  {
    var w := order[o.at];
    assert w in order;
    assert w in g.vertices && g.Degree(w) == |g.vertices| - 1;
  }

  /** A single vertex handed out is one of least fill in the whole graph. */
  lemma ListedVertex<V>(g: Graph<V>, order: seq<V>, o: Outcome<V>)
    requires ListedScan(g, order, o) && o.result.VertexAppend?
    ensures LeastFillOutcome(g, order, o)
  {
    assert o.result.vertex in order;
    LeastOverCover(order, g.vertices, u => Fill(g, u), o.at, o.scanned);
  }

  /**
   * A position whose key is least among the first `n` of a listing, and is
   * 0 unless those are all of it, holds a least key over the listed set.
   */
  lemma LeastOverCover<V>(order: seq<V>, vs: set<V>, key: V -> nat, i: nat, n: nat)
    requires forall x | x in vs :: x in order
    requires i < n <= |order|
    requires forall p | 0 <= p < n :: key(order[i]) <= key(order[p])
    requires n < |order| ==> key(order[i]) == 0
    ensures forall x | x in vs :: key(order[i]) <= key(x)
  {
    forall x | x in vs ensures key(order[i]) <= key(x) {
      var p :| 0 <= p < |order| && order[p] == x;
      if n == |order| {
        assert p < n;
      }
    }
  }

  /** A listing is empty exactly when the set it lists is. */
  lemma ListedEmpty<V>(order: seq<V>, vs: set<V>)
    requires Lists(order, vs)
    ensures |order| == 0 <==> vs == {}
  {
    if |order| > 0 {
      assert order[0] in order;
    }
    if vs != {} {
      var x :| x in vs;
      assert x in order;
    }
  }

}
