/**
 * Why a decomposition built from an elimination ordering is valid.
 *
 * When the vertices of `g` are eliminated in the order `o`, with fill
 * edges, record i holds o[i] and its neighbours in the graph left just
 * before o[i] goes.  Processed last-eliminated first, these records are
 * fresh, so they make a tree with one bag per vertex.  Every bag's
 * neighbour set is held by its parent bag: the first later-eliminated
 * neighbour m of o[i] is, after the fill, adjacent to all the others and
 * still there at its own turn.  From that the four checks of the verifier
 * follow, and the width of the tree is the width of the ordering.
 */
module OrderingDecomposition {
  import opened Wrappers
  import opened Seqs
  import opened Graphs
  import opened GraphExtensions
  import opened Replays
  import opened Connectivity
  import opened DecompositionChecks
  import opened Decompositions
  import opened EliminationDecomposition

  /** The graph left just before o[i] is eliminated. */
  ghost function Before<V>(g: Graph<V>, o: seq<V>, i: nat): Graph<V>
    requires i <= |o|
  {
    After(g, o[..i], true)
  }

  /** One elimination with fill edges: the edges not at `x` stay, and its neighbours become pairwise adjacent. */
  lemma StepAdjacent<V>(g: Graph<V>, x: V, a: V, b: V)
    requires g.IsSimple()
    ensures Step(g, x, true).Adjacent(a, b)
        <==> a != x && b != x && (g.Adjacent(a, b) || (a != b && a in g.Neighbors(x) && b in g.Neighbors(x)))
  {
    var ns := Listing(g.Neighbors(x));
    EliminatedAdjacent(g, x, ns, a, b);
  }

  lemma BeforeNext<V>(g: Graph<V>, o: seq<V>, k: nat)
    requires k < |o|
    ensures Before(g, o, k + 1) == Step(Before(g, o, k), o[k], true)
  {
    PrefixSnoc(o, k);
  }

  /** The elements before position i are in the prefix of length i. */
  lemma InPrefix<T>(o: seq<T>, i: nat)
    requires i <= |o|
    ensures forall y | 0 <= y < i :: o[y] in o[..i]
  {
    forall y | 0 <= y < i ensures o[y] in o[..i] {
      assert o[..i][y] == o[y];
    }
  }

  /** An adjacency survives while neither end is eliminated. */
  lemma {:induction false} Persist<V>(g: Graph<V>, o: seq<V>, i: nat, k: nat, a: V, b: V)
    requires g.IsSimple() && i <= k <= |o|
    requires Before(g, o, i).Adjacent(a, b)
    requires forall x | i <= x < k :: o[x] != a && o[x] != b
    ensures Before(g, o, k).Adjacent(a, b)
    decreases k
  {
    if k > i {
      Persist(g, o, i, k - 1, a, b);
      BeforeNext(g, o, k - 1);
      AfterFacts(g, o[..k - 1], true);
      StepAdjacent(Before(g, o, k - 1), o[k - 1], a, b);
    }
  }

  /** Eliminating o[i] makes any two of its neighbours adjacent. */
  lemma FillClique<V>(g: Graph<V>, o: seq<V>, i: nat, a: V, b: V)
    requires g.IsSimple() && i < |o| && a != b
    requires a in Before(g, o, i).Neighbors(o[i]) && b in Before(g, o, i).Neighbors(o[i])
    ensures Before(g, o, i + 1).Adjacent(a, b)
  {
    BeforeNext(g, o, i);
    AfterFacts(g, o[..i], true);
    StepAdjacent(Before(g, o, i), o[i], a, b);
  }

  /** What a record of the elimination holds. */
  lemma RecordAt<V>(g: Graph<V>, o: seq<V>, rs: seq<Record<V>>, i: nat)
    requires RecordsOf(g, o, true, rs) && i < |o|
    ensures rs[i].vertex == o[i] && o[i] in Before(g, o, i).vertices
    ensures Lists(rs[i].neighbors, Before(g, o, i).Neighbors(o[i]))
  {
  }

  /** A neighbour of o[i] just before its elimination is a vertex not yet eliminated, other than o[i]. */
  lemma NeighborRemains<V>(g: Graph<V>, o: seq<V>, i: nat, u: V)
    requires g.IsSimple() && i < |o| && u in Before(g, o, i).Neighbors(o[i])
    ensures u != o[i] && u in g.vertices && u !in o[..i]
  {
    AfterFacts(g, o[..i], true);
  }

  /** A recorded neighbour of o[i] is eliminated after o[i]. */
  lemma NeighborLater<V>(g: Graph<V>, o: seq<V>, i: nat, r: Record<V>, u: V)
    requires g.IsSimple() && Lists(o, g.vertices) && i < |o|
    requires Lists(r.neighbors, Before(g, o, i).Neighbors(o[i])) && u in r.neighbors
    ensures exists x | i < x < |o| :: o[x] == u
  {
    NeighborRemains(g, o, i, u);
    InPrefix(o, i);
    var x :| 0 <= x < |o| && o[x] == u;
  }

  /** A vertex eliminated before o[b] is in no later record. */
  lemma EarlierAbsent<V>(g: Graph<V>, o: seq<V>, a: nat, b: nat, r: Record<V>)
    requires g.IsSimple() && NoDups(o) && a < b < |o|
    requires r.vertex == o[b] && Lists(r.neighbors, Before(g, o, b).Neighbors(o[b]))
    ensures o[a] !in BagOf(r)
  {
    InPrefix(o, b);
    if o[a] in r.neighbors {
      NeighborRemains(g, o, b, o[a]);
      assert false;
    }
  }

  /**
   * Of two recorded neighbours of o[a], the one eliminated last is a
   * recorded neighbour of the other.
   */
  lemma FillRecorded<V>(g: Graph<V>, o: seq<V>, a: nat, b: nat, c: nat, ra: Record<V>, rb: Record<V>)
    requires g.IsSimple() && NoDups(o) && a < b < c < |o|
    requires Lists(ra.neighbors, Before(g, o, a).Neighbors(o[a])) && Lists(rb.neighbors, Before(g, o, b).Neighbors(o[b]))
    requires o[b] in ra.neighbors && o[c] in ra.neighbors
    ensures o[c] in rb.neighbors
  {
    LaterNeighbor(g, o, a, b, c);
  }

  /** An edge of `g` is recorded at its endpoint eliminated first. */
  lemma EdgeRecorded<V>(g: Graph<V>, o: seq<V>, a: nat, c: nat, ra: Record<V>)
    requires g.IsSimple() && NoDups(o) && a < c < |o| && o[c] in g.vertices
    requires Lists(ra.neighbors, Before(g, o, a).Neighbors(o[a])) && g.Adjacent(o[c], o[a])
    ensures o[c] in ra.neighbors
  {
    assert o[..0] == [];
    Persist(g, o, 0, a, o[c], o[a]);
    AfterFacts(g, o[..a], true);
  }

  /** With fill edges, a neighbour of o[i] eliminated after the first such neighbour o[m] is a neighbour of o[m] at its turn. */
  lemma LaterNeighbor<V>(g: Graph<V>, o: seq<V>, i: nat, m: nat, x: nat)
    requires g.IsSimple() && NoDups(o) && i < m < x < |o|
    requires o[m] in Before(g, o, i).Neighbors(o[i]) && o[x] in Before(g, o, i).Neighbors(o[i])
    ensures o[x] in Before(g, o, m).Neighbors(o[m])
  {
    FillClique(g, o, i, o[m], o[x]);
    Persist(g, o, i + 1, m, o[m], o[x]);
    AfterFacts(g, o[..i], true);
    AfterFacts(g, o[..m], true);
  }

  /** Processed last-eliminated first, the records of an elimination are fresh. */
  lemma RecordsFresh<V>(g: Graph<V>, o: seq<V>, rs: seq<Record<V>>)
    requires g.IsSimple() && Width(g, o, true).Some? && RecordsOf(g, o, true, rs)
    ensures Fresh(Reverse(rs))
  {
    WidthDefined(g, o, true);
    ReverseIndex(rs);
    var q, n := Reverse(rs), |o|;
    forall k, j | 0 <= k < j < |q| ensures q[j].vertex !in BagOf(q[k]) {
      RecordAt(g, o, rs, n - 1 - j);
      RecordAt(g, o, rs, n - 1 - k);
      EarlierAbsent(g, o, n - 1 - j, n - 1 - k, rs[n - 1 - k]);
    }
  }

  /** Record i is o[i]'s. */
  ghost predicate RecordVertices<V>(o: seq<V>, rs: seq<Record<V>>) {
    |rs| == |o| && forall i | 0 <= i < |o| :: rs[i].vertex == o[i]
  }

  /** Every recorded neighbour is eliminated later. */
  ghost predicate NeighborsLater<V>(o: seq<V>, rs: seq<Record<V>>)
    requires |rs| == |o|
  {
    forall i, u | 0 <= i < |o| && u in rs[i].neighbors :: u in o[i + 1..]
  }

  /** Of two recorded neighbours, the one eliminated last is recorded at the other. */
  ghost predicate FillRecordedAll<V>(o: seq<V>, rs: seq<Record<V>>)
    requires |rs| == |o|
  {
    forall a, b, c | 0 <= a < b < c < |o| && o[b] in rs[a].neighbors && o[c] in rs[a].neighbors :: o[c] in rs[b].neighbors
  }

  /** Every edge is recorded at its endpoint eliminated first. */
  ghost predicate EdgesRecorded<V>(g: Graph<V>, o: seq<V>, rs: seq<Record<V>>)
    requires |rs| == |o|
  {
    forall a, c | 0 <= a < c < |o| && g.Adjacent(o[c], o[a]) :: o[c] in rs[a].neighbors
  }

  lemma NeighborsAt<V>(g: Graph<V>, o: seq<V>, rs: seq<Record<V>>, i: nat, u: V)
    requires g.IsSimple() && RecordsOf(g, o, true, rs) && Lists(o, g.vertices) && i < |o| && u in rs[i].neighbors
    ensures u in o[i + 1..]
  {
    RecordAt(g, o, rs, i);
    NeighborLater(g, o, i, rs[i], u);
    var x :| i < x < |o| && o[x] == u;
    assert o[i + 1..][x - i - 1] == u;
  }

  lemma FillAt<V>(g: Graph<V>, o: seq<V>, rs: seq<Record<V>>, a: nat, b: nat, c: nat)
    requires g.IsSimple() && RecordsOf(g, o, true, rs) && NoDups(o) && a < b < c < |o|
    requires o[b] in rs[a].neighbors && o[c] in rs[a].neighbors
    ensures o[c] in rs[b].neighbors
  {
    RecordAt(g, o, rs, a);
    RecordAt(g, o, rs, b);
    FillRecorded(g, o, a, b, c, rs[a], rs[b]);
  }

  lemma EdgeAt<V>(g: Graph<V>, o: seq<V>, rs: seq<Record<V>>, a: nat, c: nat)
    requires g.IsSimple() && RecordsOf(g, o, true, rs) && Lists(o, g.vertices) && a < c < |o|
    requires g.Adjacent(o[c], o[a])
    ensures o[c] in rs[a].neighbors
  {
    RecordAt(g, o, rs, a);
    EdgeRecorded(g, o, a, c, rs[a]);
  }

  /** What the records of an elimination of every vertex say, in elimination order. */
  lemma RecordsForward<V>(g: Graph<V>, o: seq<V>, rs: seq<Record<V>>)
    requires g.IsSimple() && RecordsOf(g, o, true, rs) && Lists(o, g.vertices)
    ensures RecordVertices(o, rs) && NeighborsLater(o, rs) && FillRecordedAll(o, rs) && EdgesRecorded(g, o, rs)
  {
    forall i, u | 0 <= i < |o| && u in rs[i].neighbors ensures u in o[i + 1..] {
      NeighborsAt(g, o, rs, i, u);
    }
    forall a, b, c | 0 <= a < b < c < |o| && o[b] in rs[a].neighbors && o[c] in rs[a].neighbors
      ensures o[c] in rs[b].neighbors
    {
      FillAt(g, o, rs, a, b, c);
    }
    forall a, c | 0 <= a < c < |o| && g.Adjacent(o[c], o[a]) ensures o[c] in rs[a].neighbors {
      EdgeAt(g, o, rs, a, c);
    }
  }

  lemma ForwardVertices<V>(g: Graph<V>, o: seq<V>, rs: seq<Record<V>>)
    requires RecordVertices(o, rs) && Lists(o, g.vertices)
    ensures VerticesOf(Reverse(rs)) == Reverse(o) && Lists(Reverse(o), g.vertices)
  {
    ReverseIndex(rs);
    ReverseIndex(o);
    ReverseLists(o, g.vertices);
  }

  lemma ForwardNeighbors<V>(g: Graph<V>, o: seq<V>, rs: seq<Record<V>>)
    requires RecordVertices(o, rs) && NeighborsLater(o, rs)
    ensures var q := Reverse(rs); forall j, u | 0 <= j < |q| && u in q[j].neighbors :: u in VerticesOf(q)[..j]
  {
    ReverseIndex(rs);
    ReverseIndex(o);
    assert VerticesOf(Reverse(rs)) == Reverse(o);
    var q, n := Reverse(rs), |o|;
    forall j, u | 0 <= j < n && u in q[j].neighbors ensures u in VerticesOf(q)[..j] {
      assert q[j] == rs[n - 1 - j];
      SliceFlip(o, j, u);
    }
  }

  /** The last j elements, read backwards, are the first j of the reversal. */
  lemma SliceFlip<V>(o: seq<V>, j: nat, u: V)
    requires j <= |o| && u in o[|o| - j..]
    ensures |Reverse(o)| == |o| && u in Reverse(o)[..j]
  {
    ReverseIndex(o);
    var y :| 0 <= y < j && o[|o| - j..][y] == u;
    assert Reverse(o)[..j][j - 1 - y] == u;
  }

  lemma ForwardFill<V>(o: seq<V>, rs: seq<Record<V>>)
    requires RecordVertices(o, rs) && FillRecordedAll(o, rs)
    ensures var q := Reverse(rs);
            forall x, m, j | 0 <= x < m < j < |q| && q[m].vertex in q[j].neighbors && q[x].vertex in q[j].neighbors ::
              q[x].vertex in q[m].neighbors
  {
    ReverseIndex(rs);
    var q, n := Reverse(rs), |o|;
    forall x, m, j | 0 <= x < m < j < n && q[m].vertex in q[j].neighbors && q[x].vertex in q[j].neighbors
      ensures q[x].vertex in q[m].neighbors
    {
      assert q[j] == rs[n - 1 - j] && q[m] == rs[n - 1 - m] && q[x] == rs[n - 1 - x];
    }
  }

  lemma ForwardEdges<V>(g: Graph<V>, o: seq<V>, rs: seq<Record<V>>)
    requires RecordVertices(o, rs) && EdgesRecorded(g, o, rs)
    ensures var q := Reverse(rs);
            forall k, j | 0 <= k < j < |q| && g.Adjacent(q[k].vertex, q[j].vertex) :: q[k].vertex in q[j].neighbors
  {
    ReverseIndex(rs);
    var q, n := Reverse(rs), |o|;
    forall k, j | 0 <= k < j < n && g.Adjacent(q[k].vertex, q[j].vertex) ensures q[k].vertex in q[j].neighbors {
      assert q[j] == rs[n - 1 - j] && q[k] == rs[n - 1 - k];
    }
  }

  /** An elimination of every vertex leaves records that are `Filled`. */
  lemma RecordsFilled<V>(g: Graph<V>, o: seq<V>, rs: seq<Record<V>>)
    requires g.IsSimple() && RecordsOf(g, o, true, rs) && Lists(o, g.vertices)
    ensures Filled(g, Reverse(rs))
  {
    RecordsForward(g, o, rs);
    ForwardVertices(g, o, rs);
    ForwardNeighbors(g, o, rs);
    ForwardFill(o, rs);
    ForwardEdges(g, o, rs);
  }

  /** Record i's bag has one more vertex than o[i] has neighbours at its turn. */
  lemma RecordBagSize<V>(g: Graph<V>, o: seq<V>, rs: seq<Record<V>>, i: nat)
    requires g.IsSimple() && RecordsOf(g, o, true, rs) && i < |o|
    ensures |BagOf(rs[i])| == Before(g, o, i).Degree(o[i]) + 1
  {
    RecordAt(g, o, rs, i);
    AfterFacts(g, o[..i], true);
    assert (set u | u in rs[i].neighbors) == Before(g, o, i).Neighbors(o[i]);
  }

  /** The decomposition's width is the width of the ordering. */
  lemma RecordsTreewidth<V>(g: Graph<V>, o: seq<V>, rs: seq<Record<V>>)
    requires g.IsSimple() && Width(g, o, true).Some? && RecordsOf(g, o, true, rs)
    ensures Treewidth(FreshDecomposition(Reverse(rs))) == Width(g, o, true).value
  {
    var w := Width(g, o, true).value;
    BagsWithinWidth(g, o, rs);
    if o == [] {
      assert Reverse(rs) == [];
    } else {
      var j := BagAttainsWidth(g, o, rs);
      TreewidthExact(FreshDecomposition(Reverse(rs)), w, j);
    }
  }

  /** No bag of the records has more than width + 1 vertices. */
  lemma BagsWithinWidth<V>(g: Graph<V>, o: seq<V>, rs: seq<Record<V>>)
    requires g.IsSimple() && Width(g, o, true).Some? && RecordsOf(g, o, true, rs)
    ensures var bags := FreshDecomposition(Reverse(rs)).bags;
            forall j | 0 <= j < |bags| :: |bags[j].contents| - 1 <= Width(g, o, true).value
  {
    ReverseIndex(rs);
    var q, n, w := Reverse(rs), |o|, Width(g, o, true).value;
    var bags := Named(q);
    forall j | 0 <= j < n ensures |bags[j].contents| - 1 <= w {
      RecordBagSize(g, o, rs, n - 1 - j);
      TurnWithinWidth(g, o, true, w, n - 1 - j);
    }
  }

  /** Some bag of the records of a non-empty ordering has exactly width + 1 vertices. */
  lemma BagAttainsWidth<V>(g: Graph<V>, o: seq<V>, rs: seq<Record<V>>) returns (j: nat)
    requires g.IsSimple() && Width(g, o, true).Some? && RecordsOf(g, o, true, rs) && o != []
    ensures var bags := FreshDecomposition(Reverse(rs)).bags;
            j < |bags| && |bags[j].contents| - 1 == Width(g, o, true).value
  {
    ReverseIndex(rs);
    var n, w := |o|, Width(g, o, true).value;
    WidthAttained(g, o, true, w);
    var i :| 0 <= i < n && After(g, o[..i], true).Degree(o[i]) == w;
    RecordBagSize(g, o, rs, i);
    assert Before(g, o, i).Degree(o[i]) == w;
    j := n - 1 - i;
    var q := Reverse(rs);
    assert q[j] == rs[i];
    var bags := Named(q);
    assert FreshDecomposition(q).bags == bags;
    assert bags[j].contents == BagOf(rs[i]);
  }

  /**
   * What processing the records of the ordering `o` yields: one bag per
   * eliminated vertex and one edge fewer, a tree as wide as the ordering,
   * and a tree decomposition of `g` when `o` lists every vertex of `g`.
   */
  ghost predicate DecomposesBy<V(!new)>(g: Graph<V>, o: seq<V>, d: Decomposition<V>) {
    && Width(g, o, true).Some?
    && |d.bags| == |o| && (o != [] ==> |d.edges| == |o| - 1)
    && d.WellFormed() && IsForest(d.Tree()) && (o != [] ==> Connected(d.Tree()))
    && Treewidth(d) == Width(g, o, true).value
    && (Lists(o, g.vertices) ==> IsTreeDecomposition(g, d.Tree()))
  }

  /**
   * The decomposition built from an elimination ordering with fill edges:
   * processing its records last-eliminated first never fails, and yields a
   * tree of the ordering's width that is a tree decomposition of `g` when
   * the ordering covers `g`.
   */
  lemma EliminationDecomposes<V(!new)>(g: Graph<V>, o: seq<V>, rs: seq<Record<V>>)
    requires g.IsSimple() && Width(g, o, true).Some? && RecordsOf(g, o, true, rs)
    ensures Assemble(Reverse(rs)).Success?
    ensures DecomposesBy(g, o, Assemble(Reverse(rs)).value)
  {
    ReverseIndex(rs);
    RecordsFresh(g, o, rs);
    var q := Reverse(rs);
    AssembleFresh(q);
    FreshTree(q);
    RecordsTreewidth(g, o, rs);
    if Lists(o, g.vertices) {
      RecordsFilled(g, o, rs);
      FilledDecomposition(g, q);
    }
  }
}
