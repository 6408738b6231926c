/**
 * Building a tree decomposition from an elimination: every eliminated
 * vertex is recorded with the neighbours it had just before its
 * elimination; the records are then turned into bags, last record first,
 * each bag hung below an earlier bag that holds its neighbours.
 */
module TreeDecomposition {
  import opened Wrappers
  import opened Seqs
  import opened Graphs
  import opened Bags
  import opened GraphExtensions
  import opened Replays
  import opened EliminationResults
  import opened EliminationHeuristic
  import opened Runs
  import opened Decompositions
  import opened DecompositionChecks
  import opened EliminationDecomposition
  import opened OrderingDecomposition

  /**
   * The decomposition of the records, processed from the last to the first;
   * the records are consumed from the back, as from the tail of a deque.
   */
  method Compute<V>(records: seq<Record<V>>) returns (r: Result<Decomposition<V>, DecompositionError<V>>)
    ensures r == Assemble(Reverse(records))
  {
    var decomposition := new SimpleGraph<set<V>>();
    var bags: seq<NamedBag<V>> := [];
    var rootBag: Option<set<V>> := None;
    var count := 0;
    var k := |records|;
    while k > 0
      invariant 0 <= k <= |records| && count == |records| - k
      invariant fresh(decomposition)
      invariant Assemble(Reverse(records[k..])) == Success(Decomposition(bags, decomposition.edges))
      invariant decomposition.vertices == set b | b in bags :: b.contents
      invariant rootBag == if bags == [] then None else Some(bags[0].contents)
      invariant bags == [] ==> decomposition.edges == {}
    {
      k := k - 1;
      AssemblePop(records, k);
      var ok;
      ok, bags, rootBag := AttachRecord(decomposition, bags, rootBag, records[k], count);
      if !ok {
        AssembleStopped(records, k);
        return Failure(SelfLoop);
      }
      count := count + 1;
    }
    assert records[0..] == records;
    return Success(Decomposition(bags, decomposition.edges));
  }

  /** One round of `Compute`: the bag of `record` is made, added and joined to its parent. */
  method AttachRecord<V>(decomposition: SimpleGraph<set<V>>, bags: seq<NamedBag<V>>, rootBag: Option<set<V>>,
                         record: Record<V>, count: nat)
    returns (ok: bool, bags': seq<NamedBag<V>>, rootBag': Option<set<V>>)
    requires decomposition.vertices == set b | b in bags :: b.contents
    requires rootBag == if bags == [] then None else Some(bags[0].contents)
    requires bags == [] ==> decomposition.edges == {}
    modifies decomposition
    ensures ok ==> Attach(old(Decomposition(bags, decomposition.edges)), record, count)
                   == Success(Decomposition(bags', decomposition.edges))
    ensures ok ==> decomposition.vertices == (set b | b in bags' :: b.contents)
    ensures ok ==> rootBag' == if bags' == [] then None else Some(bags'[0].contents)
    ensures ok ==> bags' != []
    ensures !ok ==> Attach(old(Decomposition(bags, decomposition.edges)), record, count) == Failure(SelfLoop)
  {
    ghost var d := Decomposition(bags, decomposition.edges);
    var newBag := new Bag(BagName(count), record.neighbors);
    var _ := newBag.Add(record.vertex);
    assert newBag.contents == BagOf(record);
    var oldBag := match FirstContaining(Decomposition(bags, decomposition.edges).Contents(), set u | u in record.neighbors)
                  case Some(j) => Some(bags[j].contents)
                  case None => rootBag;
    assert d.Tree().vertices == decomposition.vertices;
    assert d.Contents() == Decomposition(bags, decomposition.edges).Contents();
    bags' := bags;
    var added := decomposition.AddVertex(newBag.contents);
    assert added <==> BagOf(record) !in d.Tree().vertices;
    if added {
      bags' := bags + [NamedBag(newBag.GetName(), newBag.contents)];
    }
    rootBag' := rootBag;
    if rootBag == None {
      rootBag' := Some(newBag.contents);
      assert bags == [] && d.bags == [];
      assert added;
      assert newBag.GetName() == BagName(count);
      assert bags' == [NamedBag(BagName(count), BagOf(record))];
      assert decomposition.edges == {};
      assert Attach(d, record, count) == Success(Decomposition(bags', decomposition.edges));
    } else {
      assert bags != [];
      ghost var parent := match FirstContaining(d.Contents(), set u | u in record.neighbors)
                          case Some(k) => d.bags[k].contents
                          case None => d.bags[0].contents;
      assert oldBag == Some(parent);
      if oldBag.value == newBag.contents {
        return false, bags', rootBag';
      }
      var _ := decomposition.AddEdge(oldBag.value, newBag.contents);
      assert decomposition.edges == if (parent, BagOf(record)) in d.edges || (BagOf(record), parent) in d.edges then d.edges
                                    else d.edges + {(parent, BagOf(record))};
      assert bags' == if BagOf(record) in d.Tree().vertices then d.bags else d.bags + [NamedBag(BagName(count), BagOf(record))];
      assert Attach(d, record, count) == Success(Decomposition(bags', decomposition.edges));
    }
    ok := true;
  }

  /** Popping record `k` extends the processing of the records after it. */
  lemma AssemblePop<V>(records: seq<Record<V>>, k: nat)
    requires k < |records|
    ensures Assemble(Reverse(records[k..]))
         == match Assemble(Reverse(records[k + 1..]))
            case Failure(e) => Failure(e)
            case Success(d) => Attach(d, records[k], |records| - k - 1)
  {
    assert records[k..] == [records[k]] + records[k + 1..];
    ReverseCons(records[k], records[k + 1..]);
    var q := Reverse(records[k..]);
    assert q[..|q| - 1] == Reverse(records[k + 1..]);
    ReverseIndex(records[k + 1..]);
  }

  /** A failure while popping is the outcome of the whole run. */
  lemma AssembleStopped<V>(records: seq<Record<V>>, k: nat)
    requires k <= |records| && Assemble(Reverse(records[k..])).Failure?
    ensures Assemble(Reverse(records)) == Assemble(Reverse(records[k..]))
  {
    var q := Reverse(records[k..]);
    assert records == records[..k] + records[k..];
    ReverseAppend(records[..k], records[k..]);
    assert (q + Reverse(records[..k]))[..|q|] == q;
    AssembleFailure(q + Reverse(records[..k]), |q|);
  }

  /** Reversing a concatenation reverses and swaps its parts. */
  lemma ReverseAppend<T>(s: seq<T>, t: seq<T>)
    ensures Reverse(s + t) == Reverse(t) + Reverse(s)
  {
    ReverseIndex(s + t);
    ReverseIndex(s);
    ReverseIndex(t);
    assert forall i | 0 <= i < |s| + |t| :: Reverse(s + t)[i] == (Reverse(t) + Reverse(s))[i];
  }

  /**
   * The decomposition of a given elimination ordering: on a copy of `g`,
   * each vertex in turn is recorded with its current neighbours and
   * eliminated with fill edges.  A vertex missing at its turn (absent, or
   * listed twice) makes the library throw.
   */
  method FromOrdering<V(!new)>(o: seq<V>, g: SimpleGraph<V>) returns (r: Result<Decomposition<V>, DecompositionError<V>>, records: seq<Record<V>>)
    requires g.Valid()
    ensures Width(g.Value(), o, true).None? ==> r.Failure? && r.error.NoSuchVertex? && r.error.vertex in o
    ensures Width(g.Value(), o, true).Some? ==> RecordsOf(g.Value(), o, true, records) && r == Assemble(Reverse(records))
    ensures Width(g.Value(), o, true).Some? ==> r.Success? && DecomposesBy(g.Value(), o, r.value)
  {
    ghost var g0 := g.Value();
    var remaining := ShallowCopy(g);
    records := [];
    var k := 0;
    while k < |o|
      invariant 0 <= k <= |o| && fresh(remaining) && remaining.Valid()
      invariant Width(g0, o[..k], true).Some?
      invariant Same(remaining.Value(), After(g0, o[..k], true))
      invariant RecordsOf(g0, o[..k], true, records)
    {
      var vertex := o[k];
      ghost var c0 := remaining.Value();
      PrefixSnoc(o, k);
      if vertex !in remaining.vertices {
        AfterFacts(g0, o[..k], true);
        WidthNoneExtends(g0, o, k + 1, true);
        return Failure(NoSuchVertex(vertex)), records;
      }
      var neighbors := remaining.NeighborListOf(vertex);
      NeighborsBound(c0, vertex);
      EliminateVertexWith(remaining, vertex, neighbors);
      SameEliminated(c0, c0, vertex, neighbors);
      RecordStep(g0, o[..k], true, records, c0, remaining.Value(), Record(vertex, neighbors));
      records := records + [Record(vertex, neighbors)];
      k := k + 1;
    }
    assert o[..k] == o;
    r := Compute(records);
    EliminationDecomposes(g0, o, records);
  }

  /**
   * The decomposition of a heuristic's run on a copy of `g`.  The run is the
   * legal trace `turns` of single-vertex results, possibly ended by a
   * `batch` of all the vertices still left.  Each vertex handed out is
   * recorded with its neighbours just before the heuristic eliminates it:
   * appended vertices and batch members at the tail of the records,
   * prepended vertices at the head, so the recorded vertices are the
   * trace's placement followed by the batch.
   */
  method FromHeuristic<V(!new)>(h: Heuristic<V>, g: SimpleGraph<V>)
    returns (r: Result<Decomposition<V>, DecompositionError<V>>, ghost turns: seq<EliminationResult<V>>,
             ghost batch: seq<V>, records: seq<Record<V>>)
    requires g.Valid() && h.Ready(g.Value())
    modifies h.Repr()
    ensures Played(g.Value(), h.Fills(), turns)
    ensures Lists(batch, After(g.Value(), Handed(turns), h.Fills()).vertices) && (batch != [] ==> h.Fills())
    ensures Lists(Handed(turns) + batch, g.vertices)
    ensures VerticesOf(records) == Placement(turns) + batch
    ensures r == Assemble(Reverse(records))
    ensures h.Fills() ==> RecordsOf(g.Value(), Handed(turns) + batch, true, records)
    ensures h.Fills() ==> r.Success? && DecomposesBy(g.Value(), Handed(turns) + batch, r.value)
    ensures !h.Fills() ==> RecordsOf(g.Value(), Handed(turns), false, Reverse(records))
  {
    ghost var g0 := g.Value();
    h.GraphOutside(g);
    turns, batch, records := HeuristicRecords(h, g);
    r := Compute(records);
    HeuristicDone(g0, h.Fills(), turns, batch, records);
  }

  /**
   * The loop of `FromHeuristic`: the records of a heuristic's run on a copy
   * of `g`, the legal trace `turns` possibly ended by a `batch` of all the
   * vertices still left.  With fill, the records follow the hand-out order;
   * without, they follow its reversal.
   */
  method HeuristicRecords<V>(h: Heuristic<V>, g: SimpleGraph<V>)
    returns (ghost turns: seq<EliminationResult<V>>, ghost batch: seq<V>, records: seq<Record<V>>)
    requires g.Valid() && h.Ready(g.Value())
    modifies h.Repr()
    ensures Played(g.Value(), h.Fills(), turns)
    ensures Lists(batch, After(g.Value(), Handed(turns), h.Fills()).vertices) && (batch != [] ==> h.Fills())
    ensures h.Fills() ==> RecordsOf(g.Value(), Handed(turns) + batch, true, records)
    ensures !h.Fills() ==> RecordsOf(g.Value(), Handed(turns), false, Reverse(records))
  {
    ghost var g0 := g.Value();
    ghost var fill := h.Fills();
    var remaining := ShallowCopy(g);
    h.GraphOutside(g);
    records := [];
    turns := [];
    batch := [];
    while true
      invariant fresh(remaining) && g.Value() == g0 && Played(g0, fill, turns) && batch == []
      invariant remaining.Valid() && h.Ready(remaining.Value())
      invariant Same(remaining.Value(), After(g0, Handed(turns), fill))
      invariant fill ==> RecordsOf(g0, Handed(turns), true, records)
      invariant !fill ==> RecordsOf(g0, Handed(turns), false, Reverse(records))
      decreases |remaining.vertices|
    {
      var result;
      result, records, turns := HeuristicStep(h, remaining, records, g0, turns);
      if result.FinalAppend? {
        batch, records := EliminateBatch(h, remaining, result.vertices, records, g0, turns);
        return;
      }
      if result.Empty? {
        AppendNothing(Handed(turns), batch);
        return;
      }
    }
  }

  /** What the end of `FromHeuristic` concludes from the trace and the records. */
  lemma HeuristicDone<V(!new)>(g: Graph<V>, fill: bool, turns: seq<EliminationResult<V>>, batch: seq<V>, records: seq<Record<V>>)
    requires g.IsSimple() && Played(g, fill, turns)
    requires Lists(batch, After(g, Handed(turns), fill).vertices) && (batch != [] ==> fill)
    requires fill ==> RecordsOf(g, Handed(turns) + batch, true, records)
    requires !fill ==> RecordsOf(g, Handed(turns), false, Reverse(records))
    ensures Lists(Handed(turns) + batch, g.vertices)
    ensures VerticesOf(records) == Placement(turns) + batch
    ensures fill ==> Assemble(Reverse(records)).Success? && DecomposesBy(g, Handed(turns) + batch, Assemble(Reverse(records)).value)
  {
    OrderDone(g, fill, turns, batch);
    if !fill {
      assert Handed(turns) + batch == Handed(turns);
    }
    HandedOutOrder(g, Handed(turns) + batch, fill, records, VerticesOf(records));
    if fill {
      WidthDefined(g, Handed(turns) + batch, true);
      EliminationDecomposes(g, Handed(turns) + batch, records);
    } else {
      assert Placement(turns) + batch == Placement(turns);
    }
  }

  /**
   * A decomposition from a heuristic's run that is valid for every heuristic.
   * A heuristic that fills yields its decomposition directly; for one that
   * only removes vertices, the order it handed them out in is reversed into
   * an elimination ordering, which is then replayed with fill.
   */
  method FromHeuristicOrdering<V(!new)>(h: Heuristic<V>, g: SimpleGraph<V>)
    returns (r: Result<Decomposition<V>, DecompositionError<V>>, order: seq<V>)
    requires g.Valid() && h.Ready(g.Value())
    modifies h.Repr()
    ensures Lists(order, g.vertices)
    ensures r.Success? && DecomposesBy(g.Value(), order, r.value)
    ensures IsTreeDecomposition(g.Value(), r.value.Tree())
  {
    ghost var turns, batch;
    var records;
    h.GraphOutside(g);
    r, turns, batch, records := FromHeuristic(h, g);
    ghost var gv := g.Value();
    ghost var handedOut := Handed(turns) + batch;
    order := VerticesOf(records);
    if !h.Fills() {
      assert handedOut == Handed(turns);
    }
    HandedOutOrder(gv, handedOut, h.Fills(), records, order);
    if !h.Fills() {
      WidthDefined(gv, order, true);
      var rebuilt;
      rebuilt, records := FromOrdering(order, g);
      r := rebuilt;
    }
  }

  /**
   * The vertices of a run's records, in order: the order handed out when
   * the heuristic fills, that order reversed when it only removes.
   */
  lemma HandedOutOrder<V>(g: Graph<V>, handedOut: seq<V>, fill: bool, records: seq<Record<V>>, order: seq<V>)
    requires |order| == |records| && forall i | 0 <= i < |records| :: order[i] == records[i].vertex
    requires Lists(handedOut, g.vertices)
    requires fill ==> RecordsOf(g, handedOut, true, records)
    requires !fill ==> RecordsOf(g, handedOut, false, Reverse(records))
    ensures fill ==> order == handedOut
    ensures !fill ==> order == Reverse(handedOut)
    ensures Lists(order, g.vertices)
  {
    if fill {
      assert order == handedOut;
    } else {
      ReverseIndex(records);
      ReverseIndex(handedOut);
      forall i | 0 <= i < |order| ensures order[i] == Reverse(handedOut)[i] {
        assert Reverse(records)[|records| - 1 - i] == records[i];
      }
      ReverseLists(handedOut, g.vertices);
    }
  }

  /**
   * One round of the loop of `FromHeuristic`, short of a batch: asks the
   * heuristic for its next result `r` on the graph the legal trace `turns`
   * left; a single vertex is a legal next turn, is recorded with its
   * neighbours there, at the tail of the records when appended and at the
   * head when prepended, and is eliminated.  A batch or an empty result
   * leaves the records and the graph as they were.
   */
  method HeuristicStep<V>(h: Heuristic<V>, remaining: SimpleGraph<V>, records: seq<Record<V>>,
                          ghost g0: Graph<V>, ghost turns: seq<EliminationResult<V>>)
    returns (r: EliminationResult<V>, records': seq<Record<V>>, ghost turns': seq<EliminationResult<V>>)
    requires remaining.Valid() && h.Ready(remaining.Value()) && g0.IsSimple()
    requires Played(g0, h.Fills(), turns) && Same(remaining.Value(), After(g0, Handed(turns), h.Fills()))
    requires h.Fills() ==> RecordsOf(g0, Handed(turns), true, records)
    requires !h.Fills() ==> RecordsOf(g0, Handed(turns), false, Reverse(records))
    modifies h.Repr(), remaining
    ensures turns' == if r.IsVertexResult() then turns + [r] else turns
    ensures Played(g0, h.Fills(), turns')
    ensures r.Empty? <==> After(g0, Handed(turns), h.Fills()).vertices == {}
    ensures !r.IsVertexResult() ==>
              && records' == records && remaining.Valid()
              && Same(remaining.Value(), After(g0, Handed(turns), h.Fills()))
    ensures r.FinalAppend? ==> h.Fills() && r.vertices == remaining.vertices && h.Batched(remaining.Value())
    ensures r.IsVertexResult() ==>
              && Proposed(After(g0, Handed(turns), h.Fills()), h.Fills(), r)
              && remaining.Valid() && h.Ready(remaining.Value()) && |remaining.vertices| < old(|remaining.vertices|)
              && Same(remaining.Value(), After(g0, Handed(turns'), h.Fills()))
              && |records'| == |records| + 1
    ensures r.VertexAppend? ==> records'[..|records|] == records && RecordsOf(g0, Handed(turns'), true, records')
    ensures r.VertexPrepend? ==> records'[1..] == records && RecordsOf(g0, Handed(turns'), false, Reverse(records'))
  {
    ghost var fill := h.Fills();
    h.ReadyIsSimple(remaining.Value());
    h.GraphOutside(remaining);
    r := Next(h, remaining);
    records', turns' := records, turns;
    if r.IsVertexResult() {
      var vertex := r.vertex;
      var neighbors := remaining.NeighborListOf(vertex);
      var record := Record(vertex, neighbors);
      RecordTurn(g0, fill, turns, records, remaining.Value(), r, record);
      PlayTurn(h, remaining, g0, turns, r);
      if r.VertexAppend? {
        records' := records + [record];
      } else {
        records' := [record] + records;
      }
      turns' := turns + [r];
    }
  }

  /**
   * Recording a legal next turn with the neighbours its vertex has on the
   * graph the trace left extends the records of the trace: at the tail when
   * the heuristic fills, at the head of the reversed records otherwise.
   */
  lemma RecordTurn<V>(g0: Graph<V>, fill: bool, turns: seq<EliminationResult<V>>, records: seq<Record<V>>,
                      c0: Graph<V>, r: EliminationResult<V>, record: Record<V>)
    requires Played(g0, fill, turns) && Same(c0, After(g0, Handed(turns), fill))
    requires fill ==> RecordsOf(g0, Handed(turns), true, records)
    requires !fill ==> RecordsOf(g0, Handed(turns), false, Reverse(records))
    requires r.IsVertexResult() && r.vertex in c0.vertices && (r.VertexAppend? <==> fill)
    requires record.vertex == r.vertex && Lists(record.neighbors, c0.Neighbors(r.vertex))
    ensures fill ==> RecordsOf(g0, Handed(turns + [r]), true, records + [record])
    ensures !fill ==> RecordsOf(g0, Handed(turns + [r]), false, Reverse([record] + records))
  {
    SameNeighbors(c0, After(g0, Handed(turns), fill), r.vertex);
    TraceSnoc(g0, fill, turns, r);
    if fill {
      RecordsSnoc(g0, Handed(turns), true, records, record);
    } else {
      RecordsSnoc(g0, Handed(turns), false, Reverse(records), record);
      ReverseCons(record, records);
    }
  }

  /**
   * The batch loop of `FromHeuristic`: the vertices left, all handed out at
   * once after the legal trace `turns`, are each recorded at the tail with
   * their current neighbours and eliminated with fill edges; with them the
   * run has handed out every vertex of `g0` once.
   */
  method EliminateBatch<V>(h: Heuristic<V>, remaining: SimpleGraph<V>, vertices: set<V>, records: seq<Record<V>>,
                           ghost g0: Graph<V>, ghost turns: seq<EliminationResult<V>>)
    returns (batch: seq<V>, records': seq<Record<V>>)
    requires remaining.Valid() && h.Batched(remaining.Value()) && g0.IsSimple() && vertices == remaining.vertices
    requires Played(g0, true, turns) && Same(remaining.Value(), After(g0, Handed(turns), true))
    requires RecordsOf(g0, Handed(turns), true, records)
    modifies h.Repr(), remaining
    ensures Lists(batch, After(g0, Handed(turns), true).vertices)
    ensures Lists(Handed(turns) + batch, g0.vertices) && RecordsOf(g0, Handed(turns) + batch, true, records')
  {
    batch := ListOf(vertices);
    ghost var handedOut := Handed(turns);
    PlayedWidth(g0, true, turns);
    ghost var handedOut' := handedOut;
    records' := records;
    for j := 0 to |batch|
      invariant handedOut' == handedOut + batch[..j]
      invariant remaining.Valid() && h.Batched(remaining.Value()) && Lists(batch[j..], remaining.vertices)
      invariant Width(g0, handedOut', true).Some? && Same(remaining.Value(), After(g0, handedOut', true))
      invariant RecordsOf(g0, handedOut', true, records')
    {
      var vertex := batch[j];
      ListsSuffix(batch, j, remaining.vertices);
      var neighbors := remaining.NeighborListOf(vertex);
      ghost var c0 := remaining.Value();
      EliminateBatched(h, remaining, vertex);
      RecordStep(g0, handedOut', true, records', c0, remaining.Value(), Record(vertex, neighbors));
      records' := records' + [Record(vertex, neighbors)];
      HeadPrefixSnoc(handedOut, batch, j);
      handedOut' := handedOut' + [vertex];
    }
    assert batch[..|batch|] == batch;
    assert remaining.vertices == {};
    AfterFacts(g0, handedOut', true);
    WidthComplete(g0, handedOut', true, Width(g0, handedOut', true).value);
  }
}
