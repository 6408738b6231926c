/**
 * What the decomposition built from a heuristic's run comes to when the
 * heuristic only removes vertices (maximum cardinality): the records hold
 * neighbours in the graph without fill, so the bags need not form a tree
 * decomposition.  On the 4-cycle 1-2-3-4-1 handed out as 1, 2, 3, 4 (each
 * vertex, at its turn, has the most already handed-out neighbours) the
 * bags {2, 3} and {3, 4} both hang off the first bag {1, 2, 4}, which does
 * not hold 3.
 */
module RemovalCounterexample {
  import opened Wrappers
  import opened Seqs
  import opened Graphs
  import opened Replays
  import opened Connectivity
  import opened DecompositionChecks
  import opened Decompositions

  function Cycle(): Graph<int> {
    Graph({1, 2, 3, 4}, {(1, 2), (2, 3), (3, 4), (4, 1)})
  }

  function CycleRecords(): seq<Record<int>> {
    [Record(1, [2, 4]), Record(2, [3]), Record(3, [4]), Record(4, [])]
  }

  lemma AfterFirst()
    ensures After(Cycle(), [1], false) == Graph({2, 3, 4}, {(2, 3), (3, 4)})
  {
    assert [1][..0] == [];
    var g := Cycle();
    var h := g.RemoveVertex(1);
    assert h.edges == {(2, 3), (3, 4)} by {
      assert (2, 3) in h.edges && (3, 4) in h.edges;
    }
  }

  lemma AfterSecond()
    ensures After(Cycle(), [1, 2], false) == Graph({3, 4}, {(3, 4)})
  {
    assert [1, 2][..1] == [1];
    AfterFirst();
    var h := Graph({2, 3, 4}, {(2, 3), (3, 4)}).RemoveVertex(2);
    assert h.edges == {(3, 4)} by {
      assert (3, 4) in h.edges;
    }
  }

  lemma AfterThird()
    ensures After(Cycle(), [1, 2, 3], false) == Graph({4}, {})
  {
    assert [1, 2, 3][..2] == [1, 2];
    AfterSecond();
    var h := Graph({3, 4}, {(3, 4)}).RemoveVertex(3);
    assert h.edges == {};
  }

  /** Each vertex's neighbours at its turn. */
  lemma NeighborsAtTurns()
    ensures Cycle().Neighbors(1) == {2, 4}
    ensures After(Cycle(), [1], false).Neighbors(2) == {3}
    ensures After(Cycle(), [1, 2], false).Neighbors(3) == {4}
    ensures After(Cycle(), [1, 2, 3], false).Neighbors(4) == {}
  {
    var g := Cycle();
    assert g.Adjacent(1, 2) && g.Adjacent(1, 4);
    AfterFirst();
    assert After(g, [1], false).Adjacent(2, 3);
    AfterSecond();
    assert After(g, [1, 2], false).Adjacent(3, 4);
    AfterThird();
  }

  /** The records are those of removing 1, 2, 3, 4 in turn from the cycle. */
  lemma CycleRecordsByRemoval()
    ensures Lists([1, 2, 3, 4], Cycle().vertices)
    ensures RecordsOf(Cycle(), [1, 2, 3, 4], false, CycleRecords())
  {
    var g, o, rs := Cycle(), [1, 2, 3, 4], CycleRecords();
    forall i | 0 <= i < 4
      ensures rs[i].vertex == o[i] && o[i] in After(g, o[..i], false).vertices
      ensures Lists(rs[i].neighbors, After(g, o[..i], false).Neighbors(o[i]))
    {
      TurnRecorded(i);
    }
  }

  /** Record `i` is vertex `i + 1`, present at its turn, with its neighbours at that turn. */
  lemma TurnRecorded(i: nat)
    requires i < 4
    ensures CycleRecords()[i].vertex == [1, 2, 3, 4][i]
    ensures [1, 2, 3, 4][i] in After(Cycle(), [1, 2, 3, 4][..i], false).vertices
    ensures Lists(CycleRecords()[i].neighbors, After(Cycle(), [1, 2, 3, 4][..i], false).Neighbors([1, 2, 3, 4][i]))
  {
    var o := [1, 2, 3, 4];
    NeighborsAtTurns();
    if i == 0 {
      assert o[..0] == [];
    } else if i == 1 {
      assert o[..1] == [1];
      AfterFirst();
    } else if i == 2 {
      assert o[..2] == [1, 2];
      AfterSecond();
    } else {
      assert o[..3] == [1, 2, 3];
      AfterThird();
    }
  }

  function Root(): set<int> {
    {1, 2, 4}
  }

  /** The decomposition after the first k records. */
  function Star(k: nat): Decomposition<int>
    requires 1 <= k <= 4
  {
    var b0, b1, b2, b3 := NamedBag(BagName(0), Root()), NamedBag(BagName(1), {2, 3}), NamedBag(BagName(2), {3, 4}), NamedBag(BagName(3), {4});
    if k == 1 then Decomposition([b0], {})
    else if k == 2 then Decomposition([b0, b1], {(Root(), {2, 3})})
    else if k == 3 then Decomposition([b0, b1, b2], {(Root(), {2, 3}), (Root(), {3, 4})})
    else Decomposition([b0, b1, b2, b3], {(Root(), {2, 3}), (Root(), {3, 4}), (Root(), {4})})
  }

  lemma AssembledFirst()
    ensures Assemble(CycleRecords()[..1]) == Success(Star(1))
  {
    var q := CycleRecords()[..1];
    assert q[..0] == [];
    assert BagOf(q[0]) == Root();
  }

  /** Record 2: no bag holds its neighbour 3, so its bag hangs off the first bag. */
  lemma AttachSecond()
    ensures Attach(Star(1), CycleRecords()[1], 1) == Success(Star(2))
  {
    var r, d := CycleRecords()[1], Star(1);
    var ns := set u | u in r.neighbors;
    assert ns == {3} && BagOf(r) == {2, 3};
    assert d.Tree().vertices == {Root()};
    assert d.Contents()[0] == Root() && !(ns <= d.Contents()[0]);
    assert FirstContaining(d.Contents(), ns).None?;
    assert {2, 3} != Root() && {2, 3} !in d.Tree().vertices;
    assert d.edges + {(Root(), {2, 3})} == Star(2).edges;
    assert d.bags + [NamedBag(BagName(1), {2, 3})] == Star(2).bags;
  }

  /** Record 3: the first bag holds its neighbour 4. */
  lemma AttachThird()
    ensures Attach(Star(2), CycleRecords()[2], 2) == Success(Star(3))
  {
    var r, d := CycleRecords()[2], Star(2);
    var ns := set u | u in r.neighbors;
    assert ns == {4} && BagOf(r) == {3, 4};
    assert d.Tree().vertices == {Root(), {2, 3}};
    assert d.Contents()[0] == Root() && ns <= d.Contents()[0];
    assert FirstContaining(d.Contents(), ns) == Some(0);
    assert {3, 4} != Root() && {3, 4} !in d.Tree().vertices;
    assert (Root(), {3, 4}) !in d.edges && ({3, 4}, Root()) !in d.edges;
    assert d.edges + {(Root(), {3, 4})} == Star(3).edges;
    assert d.bags + [NamedBag(BagName(2), {3, 4})] == Star(3).bags;
  }

  /** Record 4: it has no neighbours left, and the first bag holds none. */
  lemma AttachFourth()
    ensures Attach(Star(3), CycleRecords()[3], 3) == Success(Star(4))
  {
    var r, d := CycleRecords()[3], Star(3);
    var ns := set u | u in r.neighbors;
    assert ns == {} && BagOf(r) == {4};
    assert d.Tree().vertices == {Root(), {2, 3}, {3, 4}};
    assert d.Contents()[0] == Root() && ns <= d.Contents()[0];
    assert FirstContaining(d.Contents(), ns) == Some(0);
    assert {4} != Root() && {4} !in d.Tree().vertices;
    assert (Root(), {4}) !in d.edges && ({4}, Root()) !in d.edges;
    assert d.edges + {(Root(), {4})} == Star(4).edges;
    assert d.bags + [NamedBag(BagName(3), {4})] == Star(4).bags;
  }

  /** Processing the records gives the star around {1, 2, 4}. */
  lemma CycleAssembled()
    ensures Assemble(CycleRecords()) == Success(Star(4))
  {
    var rs := CycleRecords();
    AssembledFirst();
    AttachSecond();
    assert rs[..2][..1] == rs[..1];
    AttachThird();
    assert rs[..3][..2] == rs[..2];
    AttachFourth();
    assert rs[..4][..3] == rs[..3] && rs[..4] == rs;
  }

  /** The bags holding 3 and the tree edges between them: two bags, no edge. */
  lemma HoldersOfThree()
    ensures Induced(Star(4).Tree(), BagsWith(Star(4).Tree(), 3)) == Graph({{2, 3}, {3, 4}}, {})
  {
    var t := Star(4).Tree();
    assert t.vertices == {Root(), {2, 3}, {3, 4}, {4}};
    assert 3 !in Root() && 3 !in {4};
    assert BagsWith(t, 3) == {{2, 3}, {3, 4}};
  }

  /** Two vertices and no edge: not connected. */
  lemma TwoApart()
    ensures !Connected(Graph({{2, 3}, {3, 4}}, {}))
  {
    var s: Graph<set<int>> := Graph({{2, 3}, {3, 4}}, {});
    assert {3, 4} !in {{2, 3}};
    if Reachable(s, {2, 3}, {3, 4}) {
      var p :| Walk(s, p) && p[0] == {2, 3} && p[|p| - 1] == {3, 4};
      ClosedHoldsWalk(s, {{2, 3}}, p, |p| - 1);
      assert false;
    }
  }

  /**
   * The decomposition built from those records is not a tree decomposition
   * of the cycle: the bags holding 3 are not joined to each other.
   */
  lemma RemovalBreaksSubtree()
    ensures RecordsOf(Cycle(), [1, 2, 3, 4], false, CycleRecords())
    ensures Assemble(CycleRecords()).Success?
    ensures !SubtreesConnected(Cycle(), Assemble(CycleRecords()).value.Tree())
  {
    CycleRecordsByRemoval();
    CycleAssembled();
    HoldersOfThree();
    TwoApart();
    assert 3 in Cycle().vertices;
  }
}
