/**
 * Why the decompositions built from eliminations are tree decompositions.
 *
 * Records are processed in some order q.  When no record's vertex lies in a
 * bag made before it ("fresh" records), every record adds a new bag, and
 * every bag after the first is joined to exactly one earlier bag, its
 * parent: the result is a tree with one bag per record.  The records of an
 * elimination ordering, processed last-eliminated first, are fresh; every
 * bag's parent then holds the bag's neighbour set, which is what makes
 * every edge covered and every vertex's bags connected.
 */
module EliminationDecomposition {
  import opened Wrappers
  import opened Seqs
  import opened Graphs
  import opened GraphExtensions
  import opened Replays
  import opened Connectivity
  import opened DecompositionChecks
  import opened Decompositions

  /** The vertices of the records, in order. */
  function VerticesOf<V>(q: seq<Record<V>>): (vs: seq<V>)
    ensures |vs| == |q| && forall i | 0 <= i < |q| :: vs[i] == q[i].vertex
  {
    seq(|q|, i requires 0 <= i < |q| => q[i].vertex)
  }

  /** The bags of the records, in order. */
  function BagsOf<V>(q: seq<Record<V>>): (cs: seq<set<V>>)
    ensures |cs| == |q| && forall i | 0 <= i < |q| :: cs[i] == BagOf(q[i])
  {
    seq(|q|, i requires 0 <= i < |q| => BagOf(q[i]))
  }

  /** No record's vertex lies in a bag made from an earlier record. */
  ghost predicate Fresh<V>(q: seq<Record<V>>) {
    forall k, j | 0 <= k < j < |q| :: q[j].vertex !in BagOf(q[k])
  }

  /** The position of the bag record `j` is joined to: the first earlier bag holding its neighbours, else the first bag. */
  function Parent<V(==)>(q: seq<Record<V>>, j: nat): (p: nat)
    requires 0 < j < |q|
    ensures p < j
  {
    match FirstContaining(BagsOf(q[..j]), set u | u in q[j].neighbors)
    case Some(k) => k
    case None => 0
  }

  /** The named bags processing `q` makes when every record adds a bag. */
  function Named<V>(q: seq<Record<V>>): (bs: seq<NamedBag<V>>)
    ensures |bs| == |q| && forall i | 0 <= i < |q| :: bs[i] == NamedBag(BagName(i), BagOf(q[i]))
  {
    seq(|q|, i requires 0 <= i < |q| => NamedBag(BagName(i), BagOf(q[i])))
  }

  /** One edge per record after the first, from its parent's bag to its own. */
  function EdgesOf<V(==)>(q: seq<Record<V>>): set<(set<V>, set<V>)>
    decreases |q|
  {
    if |q| <= 1 then {}
    else EdgesOf(q[..|q| - 1]) + {(BagOf(q[Parent(q, |q| - 1)]), BagOf(q[|q| - 1]))}
  }

  /** In fresh records, bags made from different records differ. */
  lemma FreshBagsDistinct<V>(q: seq<Record<V>>, k: nat, j: nat)
    requires Fresh(q) && k < |q| && j < |q|
    ensures BagOf(q[k]) == BagOf(q[j]) <==> k == j
  {
    if k < j {
      assert q[j].vertex in BagOf(q[j]);
    } else if j < k {
      assert q[k].vertex in BagOf(q[k]);
    }
  }

  /** A record's parent is the same in every prefix holding it. */
  lemma ParentPrefix<V>(q: seq<Record<V>>, m: nat, j: nat)
    requires 0 < j < m <= |q|
    ensures Parent(q[..m], j) == Parent(q, j) && q[..m][j] == q[j]
  {
    assert q[..m][..j] == q[..j];
  }

  /** Every parent edge is an edge. */
  lemma {:induction false} ParentEdgeIn<V>(q: seq<Record<V>>, j: nat)
    requires 1 <= j < |q|
    ensures (BagOf(q[Parent(q, j)]), BagOf(q[j])) in EdgesOf(q)
    decreases |q|
  {
    if j < |q| - 1 {
      ParentEdgeIn(q[..|q| - 1], j);
      ParentPrefix(q, |q| - 1, j);
    }
  }

  /** Every edge is a parent edge. */
  lemma {:induction false} EdgeIsParentEdge<V>(q: seq<Record<V>>, e: (set<V>, set<V>))
    ensures e in EdgesOf(q) ==> exists j | 1 <= j < |q| :: e == (BagOf(q[Parent(q, j)]), BagOf(q[j]))
    decreases |q|
  {
    var n := |q|;
    if e in EdgesOf(q) && e != (BagOf(q[Parent(q, n - 1)]), BagOf(q[n - 1])) {
      EdgeIsParentEdge(q[..n - 1], e);
      var j :| 1 <= j < n - 1 && e == (BagOf(q[..n - 1][Parent(q[..n - 1], j)]), BagOf(q[..n - 1][j]));
      ParentPrefix(q, n - 1, j);
    }
  }

  /** A prefix of fresh records is fresh. */
  lemma PrefixFresh<V>(q: seq<Record<V>>, n: nat)
    requires Fresh(q) && n <= |q|
    ensures Fresh(q[..n])
  {
  }

  /** No edge among the earlier records touches the last record's bag. */
  lemma LastBagUntouched<V>(q: seq<Record<V>>)
    requires Fresh(q) && |q| >= 2
    ensures forall e | e in EdgesOf(q[..|q| - 1]) :: e.0 != BagOf(q[|q| - 1]) && e.1 != BagOf(q[|q| - 1])
  {
    var n := |q|;
    var q' := q[..n - 1];
    forall e | e in EdgesOf(q') ensures e.0 != BagOf(q[n - 1]) && e.1 != BagOf(q[n - 1]) {
      EdgeIsParentEdge(q', e);
      var j :| 1 <= j < n - 1 && e == (BagOf(q'[Parent(q', j)]), BagOf(q'[j]));
      FreshBagsDistinct(q, j, n - 1);
      FreshBagsDistinct(q, Parent(q', j), n - 1);
    }
  }

  /** `Attach` when the record's bag is new and its parent edge is not there yet. */
  lemma AttachNewBag<V>(d: Decomposition<V>, r: Record<V>, count: nat, parent: set<V>)
    requires d.bags != []
    requires parent == match FirstContaining(d.Contents(), set u | u in r.neighbors)
                       case Some(k) => d.bags[k].contents
                       case None => d.bags[0].contents
    requires BagOf(r) !in d.Tree().vertices && parent != BagOf(r)
    requires (parent, BagOf(r)) !in d.edges && (BagOf(r), parent) !in d.edges
    ensures Attach(d, r, count)
         == Success(Decomposition(d.bags + [NamedBag(BagName(count), BagOf(r))], d.edges + {(parent, BagOf(r))}))
  {
  }

  /** The bags of the named bags of `q` are the bags of its records. */
  lemma NamedContents<V>(q: seq<Record<V>>, edges: set<(set<V>, set<V>)>)
    ensures Decomposition(Named(q), edges).Contents() == BagsOf(q)
  {
  }

  /** The parent `Attach` picks for the last record is the bag at `Parent`. */
  lemma ParentBag<V>(q: seq<Record<V>>, r: Record<V>, edges: set<(set<V>, set<V>)>)
    requires |q| >= 2 && r == q[|q| - 1]
    ensures var d := Decomposition(Named(q[..|q| - 1]), edges);
            BagOf(q[Parent(q, |q| - 1)])
            == match FirstContaining(d.Contents(), set u | u in r.neighbors)
               case Some(k) => d.bags[k].contents
               case None => d.bags[0].contents
  {
    NamedContents(q[..|q| - 1], edges);
  }

  /** In fresh records, the last record's bag is not among the earlier bags. */
  lemma NewBagAbsent<V>(q: seq<Record<V>>, edges: set<(set<V>, set<V>)>)
    requires Fresh(q) && |q| >= 2
    ensures BagOf(q[|q| - 1]) !in Decomposition(Named(q[..|q| - 1]), edges).Tree().vertices
  {
    var n := |q|;
    var d := Decomposition(Named(q[..n - 1]), edges);
    NamedContents(q[..n - 1], edges);
    forall k | 0 <= k < n - 1 ensures d.Contents()[k] != BagOf(q[n - 1]) {
      FreshBagsDistinct(q, k, n - 1);
    }
  }

  /** Naming one more record appends its named bag. */
  lemma NamedSnoc<V>(q: seq<Record<V>>)
    requires |q| >= 1
    ensures Named(q[..|q| - 1]) + [NamedBag(BagName(|q| - 1), BagOf(q[|q| - 1]))] == Named(q)
  {
  }

  /** Processing one more fresh record adds its bag and exactly one edge. */
  lemma AttachFresh<V>(q: seq<Record<V>>)
    requires Fresh(q) && |q| >= 2
    ensures var n := |q|;
            Attach(Decomposition(Named(q[..n - 1]), EdgesOf(q[..n - 1])), q[n - 1], n - 1)
            == Success(Decomposition(Named(q), EdgesOf(q)))
  {
    var n := |q|;
    var q' := q[..n - 1];
    var d := Decomposition(Named(q'), EdgesOf(q'));
    var p := Parent(q, n - 1);
    ParentBag(q, q[n - 1], EdgesOf(q'));
    NewBagAbsent(q, EdgesOf(q'));
    FreshBagsDistinct(q, p, n - 1);
    LastBagUntouched(q);
    AttachNewBag(d, q[n - 1], n - 1, BagOf(q[p]));
    NamedSnoc(q);
  }

  /**
   * Processing fresh records succeeds, with one bag per record named by its
   * position, and one parent edge per record after the first.
   */
  lemma {:induction false} AssembleFresh<V>(q: seq<Record<V>>)
    requires Fresh(q)
    ensures Assemble(q) == Success(Decomposition(Named(q), EdgesOf(q)))
    ensures q != [] ==> |EdgesOf(q)| == |q| - 1
    decreases |q|
  {
    var n := |q|;
    if n == 1 {
      assert Named(q) == [NamedBag(BagName(0), BagOf(q[0]))];
    } else if n >= 2 {
      var q' := q[..n - 1];
      PrefixFresh(q, n - 1);
      AssembleFresh(q');
      AttachFresh(q);
      LastBagUntouched(q);
      assert (BagOf(q[Parent(q, n - 1)]), BagOf(q[n - 1])) !in EdgesOf(q');
    }
  }

  /** The decomposition fresh records make. */
  function FreshDecomposition<V>(q: seq<Record<V>>): Decomposition<V> {
    Decomposition(Named(q), EdgesOf(q))
  }

  /** Its vertices are exactly the records' bags. */
  lemma FreshVertices<V(!new)>(q: seq<Record<V>>)
    ensures forall i | 0 <= i < |q| :: BagOf(q[i]) in FreshDecomposition(q).Tree().vertices
    ensures forall c | c in FreshDecomposition(q).Tree().vertices :: exists i | 0 <= i < |q| :: c == BagOf(q[i])
  {
    var bs := Named(q);
    forall i | 0 <= i < |q| ensures BagOf(q[i]) in FreshDecomposition(q).Tree().vertices {
      assert bs[i] in bs;
    }
  }

  /** Each record's bag is a vertex of the tree. */
  lemma BagInTree<V>(q: seq<Record<V>>, i: nat)
    requires i < |q|
    ensures BagOf(q[i]) in FreshDecomposition(q).Tree().vertices
  {
    assert Named(q)[i] in Named(q);
  }

  /** A bag joined to an earlier bag is joined to its parent. */
  lemma AdjacentEarlier<V(!new)>(q: seq<Record<V>>, i: nat, j: nat)
    requires Fresh(q) && j < i < |q|
    requires FreshDecomposition(q).Tree().Adjacent(BagOf(q[i]), BagOf(q[j]))
    ensures j == Parent(q, i)
  {
    var ci, cj := BagOf(q[i]), BagOf(q[j]);
    var e := if (cj, ci) in EdgesOf(q) then (cj, ci) else (ci, cj);
    EdgeIsParentEdge(q, e);
    var m :| 1 <= m < |q| && e == (BagOf(q[Parent(q, m)]), BagOf(q[m]));
    FreshBagsDistinct(q, m, i);
    FreshBagsDistinct(q, m, j);
    FreshBagsDistinct(q, Parent(q, m), i);
    FreshBagsDistinct(q, Parent(q, m), j);
  }

  /** Each parent edge joins two different bags of the tree, and its reverse is no edge. */
  lemma FreshEdge<V>(q: seq<Record<V>>, e: (set<V>, set<V>))
    requires Fresh(q) && e in EdgesOf(q)
    ensures e.0 != e.1 && e.0 in FreshDecomposition(q).Tree().vertices && e.1 in FreshDecomposition(q).Tree().vertices
    ensures (e.1, e.0) !in EdgesOf(q)
  {
    EdgeIsParentEdge(q, e);
    var j :| 1 <= j < |q| && e == (BagOf(q[Parent(q, j)]), BagOf(q[j]));
    var p := Parent(q, j);
    FreshBagsDistinct(q, p, j);
    BagInTree(q, p);
    BagInTree(q, j);
    EdgeIsParentEdge(q, (e.1, e.0));
    forall m | 1 <= m < |q| ensures (e.1, e.0) != (BagOf(q[Parent(q, m)]), BagOf(q[m])) {
      FreshBagsDistinct(q, m, p);
      FreshBagsDistinct(q, Parent(q, m), j);
    }
  }

  /** Fresh records make a simple graph without a repeated bag. */
  lemma FreshWellFormed<V>(q: seq<Record<V>>)
    requires Fresh(q)
    ensures FreshDecomposition(q).WellFormed()
  {
    var d := FreshDecomposition(q);
    NamedContents(q, EdgesOf(q));
    forall i, j | 0 <= i < j < |q| ensures d.Contents()[i] != d.Contents()[j] {
      FreshBagsDistinct(q, i, j);
    }
    forall e | e in d.edges ensures e.0 != e.1 && e.0 in d.Tree().vertices && e.1 in d.Tree().vertices && (e.1, e.0) !in d.edges {
      FreshEdge(q, e);
    }
  }

  /** Listed in record order, every bag has at most one earlier neighbour: its parent. */
  lemma FreshForest<V(!new)>(q: seq<Record<V>>)
    requires Fresh(q)
    ensures IsForest(FreshDecomposition(q).Tree())
  {
    var t := FreshDecomposition(q).Tree();
    var order := BagsOf(q);
    FreshVertices(q);
    forall i, j | 0 <= i < j < |order| ensures order[i] != order[j] {
      FreshBagsDistinct(q, i, j);
    }
    forall i, j, k | 0 <= j < i < |order| && 0 <= k < i && t.Adjacent(order[i], order[j]) && t.Adjacent(order[i], order[k])
      ensures j == k
    {
      AdjacentEarlier(q, i, j);
      AdjacentEarlier(q, i, k);
    }
    assert Lists(order, t.vertices) && EarlierAtMostOne(t, order);
  }

  /** A bag and its parent's bag form a walk. */
  lemma ParentWalk<V(!new)>(q: seq<Record<V>>, i: nat)
    requires 1 <= i < |q|
    ensures Walk(FreshDecomposition(q).Tree(), [BagOf(q[Parent(q, i)]), BagOf(q[i])])
  {
    ParentEdgeIn(q, i);
    BagInTree(q, i);
    BagInTree(q, Parent(q, i));
  }

  /** Every bag reaches the first bag along parent edges. */
  lemma {:induction false} ReachesFirst<V(!new)>(q: seq<Record<V>>, i: nat)
    requires i < |q|
    ensures Reachable(FreshDecomposition(q).Tree(), BagOf(q[0]), BagOf(q[i]))
    decreases i
  {
    var t := FreshDecomposition(q).Tree();
    if i == 0 {
      BagInTree(q, 0);
      assert Walk(t, [BagOf(q[0])]);
    } else {
      var p := Parent(q, i);
      ReachesFirst(q, p);
      ParentWalk(q, i);
      ReachableTransitive(t, BagOf(q[0]), BagOf(q[p]), BagOf(q[i]));
    }
  }

  /** Fresh records make a tree: a simple forest, connected when there is a record. */
  lemma FreshTree<V(!new)>(q: seq<Record<V>>)
    requires Fresh(q)
    ensures FreshDecomposition(q).WellFormed() && IsForest(FreshDecomposition(q).Tree())
    ensures |FreshDecomposition(q).bags| == |q|
    ensures q != [] ==> Connected(FreshDecomposition(q).Tree())
  {
    FreshWellFormed(q);
    FreshForest(q);
    if q != [] {
      var t := FreshDecomposition(q).Tree();
      FreshVertices(q);
      forall c | c in t.vertices ensures Reachable(t, BagOf(q[0]), c) {
        var i :| 0 <= i < |q| && c == BagOf(q[i]);
        ReachesFirst(q, i);
      }
      ConnectedFromOne(t, BagOf(q[0]));
    }
  }

  /**
   * The records an elimination of every vertex of `g` leaves, processed
   * last-eliminated first: one record per vertex; a record's neighbours are
   * vertices processed before it (eliminated after it); two of a record's
   * neighbours are neighbours of each other at the later one's record (the
   * fill edges); and every edge of `g` shows up at the record of its
   * endpoint eliminated first.
   */
  ghost predicate Filled<V>(g: Graph<V>, q: seq<Record<V>>) {
    && Lists(VerticesOf(q), g.vertices)
    && NeighborsEarlier(q)
    && NeighborsJoined(q)
    && (forall k, j | 0 <= k < j < |q| && g.Adjacent(q[k].vertex, q[j].vertex) :: q[k].vertex in q[j].neighbors)
  }

  /** A record's neighbours are vertices of earlier records. */
  ghost predicate NeighborsEarlier<V>(q: seq<Record<V>>) {
    forall j, u | 0 <= j < |q| && u in q[j].neighbors :: u in VerticesOf(q)[..j]
  }

  /** Two neighbours of a record are neighbours of each other at the later one's record. */
  ghost predicate NeighborsJoined<V>(q: seq<Record<V>>) {
    forall x, m, j | 0 <= x < m < j < |q| && q[m].vertex in q[j].neighbors && q[x].vertex in q[j].neighbors ::
      q[x].vertex in q[m].neighbors
  }

  /** Such records are fresh. */
  lemma FilledFresh<V>(g: Graph<V>, q: seq<Record<V>>)
    requires Filled(g, q)
    ensures Fresh(q)
  {
  }

  /** The last position below `hi` whose record's vertex is among `ns`. */
  ghost function LastIn<V>(q: seq<Record<V>>, ns: seq<V>, hi: nat): (m: nat)
    requires hi <= |q| && exists x | 0 <= x < hi :: q[x].vertex in ns
    ensures m < hi && q[m].vertex in ns && forall x | m < x < hi :: q[x].vertex !in ns
    decreases hi
  {
    if q[hi - 1].vertex in ns then hi - 1 else LastIn(q, ns, hi - 1)
  }

  /** A record's neighbour is the vertex of an earlier record. */
  lemma NeighborEarlier<V>(q: seq<Record<V>>, j: nat, u: V)
    requires NeighborsEarlier(q) && j < |q| && u in q[j].neighbors
    ensures exists x | 0 <= x < j :: q[x].vertex == u
  {
    var vs := VerticesOf(q);
    assert u in vs[..j];
    var x :| 0 <= x < j && vs[..j][x] == u;
  }

  /** Every neighbour of record j is in the bag of its neighbour processed last before it. */
  lemma InLastBag<V>(q: seq<Record<V>>, j: nat, m: nat, u: V)
    requires NeighborsEarlier(q) && NeighborsJoined(q) && m < j < |q| && q[m].vertex in q[j].neighbors
    requires forall x | m < x < j :: q[x].vertex !in q[j].neighbors
    requires u in q[j].neighbors
    ensures u in BagOf(q[m])
  {
    NeighborEarlier(q, j, u);
    var y :| 0 <= y < j && q[y].vertex == u;
    if y < m {
      assert u in q[m].neighbors;
    } else if y == m {
      assert u == q[m].vertex;
    } else {
      assert false;
    }
  }

  /** When some earlier bag holds a record's neighbours, so does its parent's bag. */
  lemma ParentCovers<V>(q: seq<Record<V>>, j: nat, m: nat)
    requires m < j < |q| && forall u | u in q[j].neighbors :: u in BagOf(q[m])
    ensures (set u | u in q[j].neighbors) <= BagOf(q[Parent(q, j)])
  {
    var cs := BagsOf(q[..j]);
    assert cs[m] == BagOf(q[m]);
  }

  /**
   * The bag a record is joined to holds all of the record's neighbours: the
   * bag of the neighbour eliminated first after it already does.
   */
  lemma FilledParent<V>(g: Graph<V>, q: seq<Record<V>>, j: nat)
    requires Filled(g, q) && 1 <= j < |q|
    ensures (set u | u in q[j].neighbors) <= BagOf(q[Parent(q, j)])
  {
    var ns := q[j].neighbors;
    if ns != [] {
      NeighborEarlier(q, j, ns[0]);
      var m := LastIn(q, ns, j);
      forall u | u in ns ensures u in BagOf(q[m]) {
        InLastBag(q, j, m, u);
      }
      ParentCovers(q, j, m);
    }
  }

  /** The tree's subgraph on the bags holding `v`. */
  ghost function Subtree<V>(q: seq<Record<V>>, v: V): Graph<set<V>> {
    Induced(FreshDecomposition(q).Tree(), BagsWith(FreshDecomposition(q).Tree(), v))
  }

  /** A bag and its parent's bag, both holding `u`, form a walk of the subtree of `u`. */
  lemma SubtreeParentWalk<V(!new)>(q: seq<Record<V>>, j: nat, u: V)
    requires 1 <= j < |q| && u in BagOf(q[j]) && u in BagOf(q[Parent(q, j)])
    ensures Walk(Subtree(q, u), [BagOf(q[j]), BagOf(q[Parent(q, j)])])
  {
    ParentEdgeIn(q, j);
    BagInTree(q, j);
    BagInTree(q, Parent(q, j));
  }

  /** A bag whose parent's bag reaches `c` in the subtree of `u` reaches it too. */
  lemma ReachThroughParent<V(!new)>(q: seq<Record<V>>, j: nat, c: set<V>, u: V)
    requires 1 <= j < |q| && u in BagOf(q[j]) && u in BagOf(q[Parent(q, j)])
    requires Reachable(Subtree(q, u), BagOf(q[Parent(q, j)]), c)
    ensures Reachable(Subtree(q, u), BagOf(q[j]), c)
  {
    SubtreeParentWalk(q, j, u);
    ReachableTransitive(Subtree(q, u), BagOf(q[j]), BagOf(q[Parent(q, j)]), c);
  }

  /** A bag holding q[t]'s vertex is q[t]'s own or a later one that has it as a neighbour. */
  lemma HolderLater<V>(g: Graph<V>, q: seq<Record<V>>, t: nat, j: nat)
    requires Filled(g, q) && t < |q| && j < |q| && q[t].vertex in BagOf(q[j])
    ensures t <= j && (t < j ==> q[t].vertex in q[j].neighbors)
  {
    if q[t].vertex in q[j].neighbors {
      NeighborEarlier(q, j, q[t].vertex);
    }
  }

  /** Every bag after q[t]'s that holds q[t]'s vertex has a parent that holds it, at or after q[t]'s. */
  ghost predicate HoldersClimb<V>(q: seq<Record<V>>, t: nat)
    requires t < |q|
  {
    forall j | t < j < |q| && q[t].vertex in BagOf(q[j]) ::
      t <= Parent(q, j) && q[t].vertex in BagOf(q[Parent(q, j)])
  }

  lemma FilledHoldersClimb<V>(g: Graph<V>, q: seq<Record<V>>, t: nat)
    requires Filled(g, q) && t < |q|
    ensures HoldersClimb(q, t)
  {
    forall j | t < j < |q| && q[t].vertex in BagOf(q[j])
      ensures t <= Parent(q, j) && q[t].vertex in BagOf(q[Parent(q, j)])
    {
      HolderLater(g, q, t, j);
      FilledParent(g, q, j);
      HolderLater(g, q, t, Parent(q, j));
    }
  }

  /** A bag holding q[t]'s vertex reaches q[t]'s bag through bags holding it. */
  lemma {:induction false} ReachOwnBag<V(!new)>(q: seq<Record<V>>, t: nat, j: nat)
    requires t <= j < |q| && HoldersClimb(q, t) && q[t].vertex in BagOf(q[j])
    ensures Reachable(Subtree(q, q[t].vertex), BagOf(q[j]), BagOf(q[t]))
    decreases j
  {
    var u := q[t].vertex;
    if j == t {
      BagInTree(q, t);
      assert Walk(Subtree(q, u), [BagOf(q[t])]);
    } else {
      ReachOwnBag(q, t, Parent(q, j));
      ReachThroughParent(q, j, BagOf(q[t]), u);
    }
  }

  /** The bags holding any one vertex form a connected subtree. */
  lemma FilledSubtrees<V(!new)>(g: Graph<V>, q: seq<Record<V>>)
    requires Filled(g, q)
    ensures SubtreesConnected(g, FreshDecomposition(q).Tree())
  {
    FreshVertices(q);
    forall v | v in g.vertices ensures Connected(Subtree(q, v)) {
      var t :| 0 <= t < |q| && q[t].vertex == v;
      var h := Subtree(q, v);
      BagInTree(q, t);
      FilledHoldersClimb(g, q, t);
      forall c | c in h.vertices ensures Reachable(h, BagOf(q[t]), c) {
        var j :| 0 <= j < |q| && c == BagOf(q[j]);
        HolderLater(g, q, t, j);
        ReachOwnBag(q, t, j);
        ReachableSymmetric(h, c, BagOf(q[t]));
      }
      ConnectedFromOne(h, BagOf(q[t]));
    }
  }

  /** Every edge lies in the bag of its endpoint eliminated first. */
  lemma FilledCoversEdge<V>(g: Graph<V>, q: seq<Record<V>>, e: (V, V))
    requires g.IsSimple() && Filled(g, q) && e in g.edges
    ensures Covered(FreshDecomposition(q).Tree(), e)
  {
    var x :| 0 <= x < |q| && q[x].vertex == e.0;
    var y :| 0 <= y < |q| && q[y].vertex == e.1;
    var j := if x < y then y else x;
    BagInTree(q, j);
  }

  /** Records of an elimination of the whole graph make a tree decomposition of it. */
  lemma FilledDecomposition<V(!new)>(g: Graph<V>, q: seq<Record<V>>)
    requires g.IsSimple() && Filled(g, q)
    ensures Fresh(q) && IsTreeDecomposition(g, FreshDecomposition(q).Tree())
  {
    FilledFresh(g, q);
    FreshTree(q);
    forall v | v in g.vertices ensures exists b | b in FreshDecomposition(q).Tree().vertices :: v in b {
      var t :| 0 <= t < |q| && q[t].vertex == v;
      BagInTree(q, t);
    }
    forall e | e in g.edges ensures Covered(FreshDecomposition(q).Tree(), e) {
      FilledCoversEdge(g, q, e);
    }
    FilledSubtrees(g, q);
  }
}
