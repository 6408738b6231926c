/**
 * The stepping framework every heuristic plugs into: a heuristic proposes
 * the next step, the framework records it and lets the heuristic eliminate
 * the vertex, on a copy of the caller's graph.  The three heuristics are the
 * three cases of one datatype; each case forwards to its own class.
 */
module EliminationHeuristic {
  import opened Wrappers
  import opened Seqs
  import opened Graphs
  import opened GraphExtensions
  import opened EliminationResults
  import opened Replays
  import opened MinFillSpec
  import opened Runs
  import MinDegree
  import MaxCardinality
  import MinFill

  datatype Heuristic<V(==)> =
    | MinDegreeOf(minDegree: MinDegree.MinDegreeHeuristic<V>)
    | MaxCardinalityOf(maxCardinality: MaxCardinality.MaxCardinalityHeuristic<V>)
    | MinFillOf(minFill: MinFill.MinFillHeuristic<V>)
  {
    ghost function Repr(): set<object> {
      match this
      case MinDegreeOf(h) => {h}
      case MaxCardinalityOf(h) => {h}
      case MinFillOf(h) => {h}
    }

    /** Whether eliminating adds fill edges; the maximum-cardinality heuristic only removes the vertex. */
    predicate Fills() {
      !MaxCardinalityOf?
    }

    /** The heuristic's state fits `g` and no proposed vertex awaits elimination. */
    ghost predicate Ready(g: Graph<V>)
      reads Repr()
    {
      match this
      case MinDegreeOf(h) => h.Valid(g) && h.taken == {}
      case MaxCardinalityOf(h) => h.Valid(g) && h.taken == {}
      case MinFillOf(h) => h.Valid(g)
    }

    /** The heuristic's state fits `g` and it has just proposed `x`. */
    ghost predicate Pending(g: Graph<V>, x: V)
      reads Repr()
    {
      && x in g.vertices
      && match this
         case MinDegreeOf(h) => h.Valid(g) && h.taken == {x}
         case MaxCardinalityOf(h) => h.Valid(g) && h.taken == {x}
         case MinFillOf(h) => h.Valid(g)
    }

    /** A heuristic is only ever ready on a simple graph. */
    lemma ReadyIsSimple(g: Graph<V>)
      requires Ready(g)
      ensures g.IsSimple()
    {
    }

    /** The heuristic's objects are never a graph, so stepping it leaves every graph alone. */
    lemma GraphOutside(g: SimpleGraph<V>)
      ensures g !in Repr()
    {
    }

    /** The heuristic's state fits `g` after it handed out all of `g` as a batch. */
    ghost predicate Batched(g: Graph<V>)
      reads Repr()
    {
      match this
      case MinDegreeOf(h) => h.Valid(g) && h.taken == g.vertices
      case MaxCardinalityOf(h) => false
      case MinFillOf(h) => h.Valid(g)
    }
  }

  /**
   * The next step.  Nothing is left exactly on the empty graph; a batch is
   * all the vertices; a single vertex is a vertex of the graph with its
   * current degree.  Only the maximum-cardinality heuristic prepends, and
   * it never hands out a batch.
   */
  method Next<V>(h: Heuristic<V>, g: SimpleGraph<V>) returns (r: EliminationResult<V>)
    requires h.Ready(g.Value())
    modifies h.Repr()
    ensures r.Empty? <==> g.vertices == {}
    ensures r.FinalAppend? ==> h.Fills() && r.vertices == g.vertices && h.Batched(g.Value())
    ensures r.VertexAppend? ==> h.Fills()
    ensures r.VertexPrepend? ==> !h.Fills()
    ensures r.IsVertexResult() ==>
              && r.vertex in g.vertices && r.degree == g.Value().Degree(r.vertex)
              && h.Pending(g.Value(), r.vertex)
  {
    match h
    case MinDegreeOf(m) =>
      r := NextMinDegree(m, g);
    case MaxCardinalityOf(m) =>
      r := NextMaxCardinality(m, g);
    case MinFillOf(m) =>
      r := NextMinFill(m, g);
  }

  /** The minimum-degree case of `Next`. */
  method NextMinDegree<V>(m: MinDegree.MinDegreeHeuristic<V>, g: SimpleGraph<V>) returns (r: EliminationResult<V>)
    requires m.Valid(g.Value()) && m.taken == {}
    modifies m
    ensures !r.VertexPrepend?
    ensures r.Empty? <==> g.vertices == {}
    ensures r.FinalAppend? ==> r.vertices == g.vertices && m.Valid(g.Value()) && m.taken == g.vertices
    ensures r.VertexAppend? ==>
              && r.vertex in g.vertices && r.degree == g.Value().Degree(r.vertex)
              && m.Valid(g.Value()) && m.taken == {r.vertex}
  {
    r := m.Next(g);
  }

  /** The maximum-cardinality case of `Next`. */
  method NextMaxCardinality<V>(m: MaxCardinality.MaxCardinalityHeuristic<V>, g: SimpleGraph<V>) returns (r: EliminationResult<V>)
    requires m.Valid(g.Value()) && m.taken == {}
    modifies m
    ensures r.VertexPrepend? || r.Empty?
    ensures r.Empty? <==> g.vertices == {}
    ensures r.VertexPrepend? ==>
              && r.vertex in g.vertices && r.degree == g.Value().Degree(r.vertex)
              && m.Valid(g.Value()) && m.taken == {r.vertex}
  {
    r := m.Next(g);
  }

  /** The minimum-fill case of `Next`, scanning the vertex set in its iteration order. */
  method NextMinFill<V>(m: MinFill.MinFillHeuristic<V>, g: SimpleGraph<V>) returns (r: EliminationResult<V>)
    requires m.Valid(g.Value())
    modifies m
    ensures m.Valid(g.Value()) && !r.VertexPrepend?
    ensures r.Empty? <==> g.vertices == {}
    ensures r.FinalAppend? ==> r.vertices == g.vertices
    ensures r.VertexAppend? ==> r.vertex in g.vertices && r.degree == g.Value().Degree(r.vertex)
  {
    var order := g.VertexList();
    ListsLength(order, g.vertices);
    ghost var n, at;
    r, n, at := m.Next(g, order);
    ScanMinimal(g.Value(), order);
  }

  /**
   * Eliminates the proposed vertex: the elimination-game step for the
   * fill-in heuristics, plain removal for maximum cardinality.
   */
  method Eliminate<V>(h: Heuristic<V>, g: SimpleGraph<V>, x: V)
    requires h.Pending(g.Value(), x)
    modifies h.Repr(), g
    ensures g.Valid() && h.Ready(g.Value())
    ensures g.vertices == old(g.vertices) - {x}
    ensures Same(g.Value(), Step(old(g.Value()), x, h.Fills()))
  {
    ghost var g0 := g.Value();
    match h
    case MinDegreeOf(m) =>
      ghost var ns := m.Eliminate(g, x);
      SameEliminated(g0, g0, x, ns);
    case MaxCardinalityOf(m) =>
      m.Eliminate(g, x);
    case MinFillOf(m) =>
      ghost var ns := m.EliminateFixed(g, x);
      SameEliminated(g0, g0, x, ns);
  }

  /** Eliminates a member of the batch just handed out; the fill-in heuristics eliminate with fill edges. */
  method EliminateBatched<V>(h: Heuristic<V>, g: SimpleGraph<V>, x: V)
    requires h.Batched(g.Value()) && x in g.vertices
    modifies h.Repr(), g
    ensures g.Valid() && h.Batched(g.Value()) && h.Fills()
    ensures g.vertices == old(g.vertices) - {x}
    ensures Same(g.Value(), Step(old(g.Value()), x, true))
  {
    ghost var g0 := g.Value();
    match h
    case MinDegreeOf(m) =>
      ghost var ns := m.Eliminate(g, x);
      SameEliminated(g0, g0, x, ns);
    case MinFillOf(m) =>
      ghost var ns := m.EliminateFixed(g, x);
      SameEliminated(g0, g0, x, ns);
  }

  /**
   * The elimination ordering the heuristic produces, on a copy of `g`.  The
   * run is the legal trace `turns` of single-vertex results, each proposed
   * on what the earlier ones left, possibly ended by a `batch` of all the
   * vertices still left; the ordering places each single vertex at the tail
   * (appended) or at the head (prepended) and the batch at the tail, and it
   * lists every vertex of `g` exactly once.
   */
  method EliminationOrder<V>(h: Heuristic<V>, g: SimpleGraph<V>)
    returns (order: seq<V>, ghost turns: seq<EliminationResult<V>>, ghost batch: seq<V>)
    requires g.Valid() && h.Ready(g.Value())
    modifies h.Repr()
    ensures Played(g.Value(), h.Fills(), turns)
    ensures Lists(batch, After(g.Value(), Handed(turns), h.Fills()).vertices) && (batch != [] ==> h.Fills())
    ensures order == Placement(turns) + batch
    ensures Lists(order, g.vertices) && Lists(Handed(turns) + batch, g.vertices)
    ensures if h.Fills() then order == Handed(turns) + batch else order == Reverse(Handed(turns))
  {
    ghost var g0 := g.Value();
    ghost var fill := h.Fills();
    var c := ShallowCopy(g);
    h.GraphOutside(g);
    order := [];
    turns := [];
    batch := [];
    while true
      invariant fresh(c) && g.Value() == g0 && h.Ready(c.Value())
      invariant Played(g0, fill, turns) && order == Placement(turns) && batch == []
      invariant Same(c.Value(), After(g0, Handed(turns), fill))
      decreases |c.vertices|
    {
      var r := Turn(h, c, g0, turns);
      if r.VertexAppend? {
        order := order + [r.vertex];
      }
      if r.VertexPrepend? {
        order := [r.vertex] + order;
      }
      if r.FinalAppend? {
        var rest := ListOf(r.vertices);
        order := order + rest;
        batch := rest;
        OrderDone(g0, fill, turns, batch);
        return;
      }
      if r.Empty? {
        AppendNothing(order, batch);
        OrderDone(g0, fill, turns, batch);
        return;
      }
      TraceSnoc(g0, fill, turns, r);
      turns := turns + [r];
    }
  }

  /**
   * One round of either loop: asks the heuristic for its next result `r` on
   * the working copy `c`, the graph the legal trace `turns` left of `g0`,
   * and eliminates a single vertex it hands out.  Nothing is left exactly
   * when that graph is empty; a batch is all of its vertices; a single
   * vertex is a legal next turn, after which `c` is what the longer trace
   * leaves.
   */
  method Turn<V>(h: Heuristic<V>, c: SimpleGraph<V>, ghost g0: Graph<V>, ghost turns: seq<EliminationResult<V>>)
    returns (r: EliminationResult<V>)
    requires h.Ready(c.Value()) && g0.IsSimple()
    requires Played(g0, h.Fills(), turns) && Same(c.Value(), After(g0, Handed(turns), h.Fills()))
    modifies h.Repr(), c
    ensures r.Empty? <==> After(g0, Handed(turns), h.Fills()).vertices == {}
    ensures r.FinalAppend? ==>
              && h.Fills() && r.vertices == After(g0, Handed(turns), h.Fills()).vertices
              && c.vertices == r.vertices
    ensures r.IsVertexResult() ==>
              && Proposed(After(g0, Handed(turns), h.Fills()), h.Fills(), r) && Played(g0, h.Fills(), turns + [r])
              && h.Ready(c.Value()) && |c.vertices| < old(|c.vertices|)
              && Same(c.Value(), After(g0, Handed(turns + [r]), h.Fills()))
  {
    h.ReadyIsSimple(c.Value());
    h.GraphOutside(c);
    r := Next(h, c);
    if r.IsVertexResult() {
      PlayTurn(h, c, g0, turns, r);
    }
  }

  /**
   * Eliminates the vertex of a single-vertex result the heuristic just
   * proposed on the graph a legal trace left: the result is a legal next
   * turn, and the graph is then the one the longer trace leaves.
   */
  method PlayTurn<V>(h: Heuristic<V>, c: SimpleGraph<V>, ghost g0: Graph<V>, ghost turns: seq<EliminationResult<V>>, r: EliminationResult<V>)
    requires r.IsVertexResult() && h.Pending(c.Value(), r.vertex) && c.Value().IsSimple() && g0.IsSimple()
    requires (r.VertexAppend? <==> h.Fills()) && r.degree == c.Value().Degree(r.vertex)
    requires Played(g0, h.Fills(), turns) && Same(c.Value(), After(g0, Handed(turns), h.Fills()))
    modifies h.Repr(), c
    ensures c.Valid() && h.Ready(c.Value()) && |c.vertices| < old(|c.vertices|)
    ensures Proposed(After(g0, Handed(turns), h.Fills()), h.Fills(), r) && Played(g0, h.Fills(), turns + [r])
    ensures Same(c.Value(), After(g0, Handed(turns + [r]), h.Fills()))
  {
    ghost var c0 := c.Value();
    Eliminate(h, c, r.vertex);
    ProposedStep(g0, h.Fills(), turns, r, c0, c.Value());
  }

  /**
   * A result `r` the heuristic proposed on `c0`, the graph the trace left,
   * is a legal next turn, and eliminating its vertex from `c0` leaves the
   * graph the longer trace leaves.
   */
  lemma ProposedStep<V>(g0: Graph<V>, fill: bool, turns: seq<EliminationResult<V>>, r: EliminationResult<V>, c0: Graph<V>, c1: Graph<V>)
    requires g0.IsSimple() && c0.IsSimple() && Played(g0, fill, turns)
    requires Same(c0, After(g0, Handed(turns), fill))
    requires r.IsVertexResult() && (r.VertexAppend? <==> fill)
    requires r.vertex in c0.vertices && r.degree == c0.Degree(r.vertex)
    requires Same(c1, Step(c0, r.vertex, fill))
    ensures Proposed(c0, fill, r) && Played(g0, fill, turns + [r])
    ensures Same(c1, After(g0, Handed(turns + [r]), fill)) && |c1.vertices| < |c0.vertices|
  {
    var a := After(g0, Handed(turns), fill);
    SameNeighbors(c0, a, r.vertex);
    TraceSnoc(g0, fill, turns, r);
    PlayedWidth(g0, fill, turns);
    WidthStep(g0, Handed(turns), r.vertex, fill, DegreeFold(turns), c0, c1);
    StepFacts(c0, r.vertex, fill);
    CardRemove(c0.vertices, r.vertex);
  }

  /** A legal trace completed by a batch of the vertices left lists every vertex of `g` once, in both placements. */
  lemma OrderDone<V>(g: Graph<V>, fill: bool, turns: seq<EliminationResult<V>>, batch: seq<V>)
    requires g.IsSimple() && Played(g, fill, turns)
    requires Lists(batch, After(g, Handed(turns), fill).vertices) && (batch != [] ==> fill)
    ensures Lists(Placement(turns) + batch, g.vertices) && Lists(Handed(turns) + batch, g.vertices)
    ensures if fill then Placement(turns) + batch == Handed(turns) + batch else Placement(turns) == Reverse(Handed(turns))
  {
    PlayedLists(g, fill, turns);
    PlayedPlacement(g, fill, turns);
    AfterFacts(g, Handed(turns), fill);
    HandOutBatch(Handed(turns), g.vertices, After(g, Handed(turns), fill).vertices, batch);
    if !fill {
      assert batch == [] && Handed(turns) + batch == Handed(turns);
      ReverseLists(Handed(turns), g.vertices);
    }
  }

  /** Handing out the vertices `c0` left as a batch completes the ordering. */
  lemma HandOutBatch<V>(handedOut: seq<V>, all: set<V>, c0: set<V>, batch: seq<V>)
    requires c0 <= all && Lists(handedOut, all - c0) && Lists(batch, c0)
    ensures Lists(handedOut + batch, all)
  {
    ListsConcat(handedOut, all - c0, batch, c0);
    assert (all - c0) + c0 == all;
  }

  /**
   * The width of the heuristic's run on a copy of `g`.  The run is the legal
   * trace `turns` of single-vertex results, possibly ended by a `batch` of
   * all the vertices still left; the width is the largest degree a result
   * reports, and one less than the number of vertices left when a batch
   * comes; 0 at least.  The degree fold is the width of replaying the
   * handed-out vertices on `g` (`Runs.PlayedWidth`); with a batch the result
   * bounds the replay width of the whole hand-out from above.
   */
  method Treewidth<V>(h: Heuristic<V>, g: SimpleGraph<V>)
    returns (w: int, ghost turns: seq<EliminationResult<V>>, ghost batch: seq<V>)
    requires g.Valid() && h.Ready(g.Value())
    modifies h.Repr()
    ensures Played(g.Value(), h.Fills(), turns)
    ensures Lists(batch, After(g.Value(), Handed(turns), h.Fills()).vertices) && (batch != [] ==> h.Fills())
    ensures w == Max(DegreeFold(turns), |batch| - 1)
    ensures TreewidthDone(g.Value(), h.Fills(), w, Handed(turns) + batch, batch != [])
  {
    ghost var g0 := g.Value();
    ghost var fill := h.Fills();
    var c := ShallowCopy(g);
    h.GraphOutside(g);
    w := 0;
    turns := [];
    batch := [];
    while true
      invariant fresh(c) && g.Value() == g0 && h.Ready(c.Value())
      invariant Played(g0, fill, turns) && batch == [] && w == DegreeFold(turns)
      invariant Same(c.Value(), After(g0, Handed(turns), fill))
      decreases |c.vertices|
    {
      var r := Turn(h, c, g0, turns);
      if r.FinalAppend? {
        w := Max(w, |c.vertices| - 1);
        batch := Listing(c.vertices);
        ListsLength(batch, c.vertices);
      }
      if !r.IsVertexResult() {
        TreewidthFinish(g0, fill, turns, batch);
        return;
      }
      w := Max(w, r.degree);
      TraceSnoc(g0, fill, turns, r);
      turns := turns + [r];
    }
  }

  /** What `Treewidth` promises of its results. */
  ghost predicate TreewidthDone<V>(g: Graph<V>, fill: bool, w: int, handedOut: seq<V>, batched: bool) {
    && Lists(handedOut, g.vertices)
    && 0 <= w <= Max(0, |g.vertices| - 1)
    && (!batched ==> Width(g, handedOut, fill) == Some(w))
    && (batched ==> fill && Width(g, handedOut, true).Some? && Width(g, handedOut, true).value <= w)
  }

  /** The end of `Treewidth`: the folds of a legal trace and its batch meet `TreewidthDone`. */
  lemma TreewidthFinish<V>(g0: Graph<V>, fill: bool, turns: seq<EliminationResult<V>>, batch: seq<V>)
    requires g0.IsSimple() && Played(g0, fill, turns)
    requires Lists(batch, After(g0, Handed(turns), fill).vertices) && (batch != [] ==> fill)
    ensures TreewidthDone(g0, fill, Max(DegreeFold(turns), |batch| - 1), Handed(turns) + batch, batch != [])
  {
    var o := Handed(turns);
    var c0 := After(g0, o, fill);
    PlayedWidth(g0, fill, turns);
    AfterFacts(g0, o, fill);
    ListsLength(batch, c0.vertices);
    if batch == [] {
      assert o + batch == o;
      EmptyDone(g0, o, fill, DegreeFold(turns), c0);
      assert Max(DegreeFold(turns), |batch| - 1) == DegreeFold(turns);
    } else {
      BatchDone(g0, o, batch, fill, DegreeFold(turns), c0);
    }
  }

  /** A batch of the vertices left after `o` ends the width computation with the running maximum. */
  lemma BatchDone<V>(g0: Graph<V>, o: seq<V>, batch: seq<V>, fill: bool, w: nat, c0: Graph<V>)
    requires g0.IsSimple() && fill && Width(g0, o, fill) == Some(w)
    requires Same(c0, After(g0, o, fill)) && Lists(batch, c0.vertices)
    ensures TreewidthDone(g0, fill, Max(w, |c0.vertices| - 1), o + batch, true)
  {
    WidthOfBatch(g0, o, batch, fill, w);
  }

  /** With no vertex left, the running maximum is the width of the whole ordering. */
  lemma EmptyDone<V>(g0: Graph<V>, o: seq<V>, fill: bool, w: nat, c0: Graph<V>)
    requires g0.IsSimple() && Width(g0, o, fill) == Some(w)
    requires Same(c0, After(g0, o, fill)) && c0.vertices == {}
    ensures TreewidthDone(g0, fill, w, o, false)
  {
    WidthComplete(g0, o, fill, w);
  }

  /** One turn of `TreewidthOf`: eliminating the next vertex of the order with fill edges in the working copy. */
  lemma StaticWidthStep<V>(g0: Graph<V>, order: seq<V>, k: nat, w: nat, c0: Graph<V>, ns: seq<V>)
    requires k < |order| && g0.IsSimple() && c0.IsSimple() && Width(g0, order[..k], true) == Some(w)
    requires Same(c0, After(g0, order[..k], true)) && order[k] in c0.vertices
    requires Lists(ns, c0.Neighbors(order[k]))
    ensures Width(g0, order[..k + 1], true) == Some(Max(w, |ns|))
    ensures Same(Eliminated(c0, order[k], ns), After(g0, order[..k + 1], true))
  {
    var x := order[k];
    PrefixSnoc(order, k);
    ListsLength(ns, c0.Neighbors(x));
    SameEliminated(c0, c0, x, ns);
    StepFacts(c0, x, true);
    WidthStep(g0, order[..k], x, true, w, c0, Eliminated(c0, x, ns));
  }

  /**
   * The static width of an ordering: on a copy of `g`, each vertex in turn
   * contributes its number of neighbours and is eliminated with fill edges;
   * the largest contribution, or 0 for the empty ordering.  A vertex that is
   * not in the copy at its turn makes the library throw.
   */
  method TreewidthOf<V>(g: SimpleGraph<V>, order: seq<V>) returns (w: Option<int>)
    requires g.Valid()
    ensures w == Width(g.Value(), order, true)
  {
    ghost var g0 := g.Value();
    var c := ShallowCopy(g);
    var result := 0;
    var k := 0;
    while k < |order|
      invariant 0 <= k <= |order| && fresh(c) && c.Valid()
      invariant Width(g0, order[..k], true) == Some(result)
      invariant Same(c.Value(), After(g0, order[..k], true))
    {
      var x := order[k];
      ghost var c0 := c.Value();
      PrefixSnoc(order, k);
      AfterFacts(g0, order[..k], true);
      if x !in c.vertices {
        WidthNoneExtends(g0, order, k + 1, true);
        return None;
      }
      var neighbors := c.NeighborListOf(x);
      var value := |neighbors|;
      EliminateVertexWith(c, x, neighbors);
      StaticWidthStep(g0, order, k, result, c0, neighbors);
      result := Max(result, value);
      k := k + 1;
    }
    assert order[..k] == order;
    return Some(result);
  }
}
