/**
 * Tree decompositions as values: the records an elimination leaves, the
 * bags made from them, and the decomposition that processing the records
 * one by one produces.
 */
module Decompositions {
  import opened Wrappers
  import opened Seqs
  import opened Graphs
  import opened GraphExtensions
  import opened Replays

  /** An eliminated vertex with the neighbour list captured just before its elimination. */
  datatype Record<V> = Record(vertex: V, neighbors: seq<V>)

  /** A bag as the decomposition holds it: its name and its vertices. */
  datatype NamedBag<V> = NamedBag(name: string, contents: set<V>)

  /**
   * The decomposition graph.  Its vertices are bags, which are equal when
   * their contents are; `bags` lists them in the order they were added,
   * which is the order the graph's vertex set iterates in, and every edge
   * joins two bag contents.
   */
  datatype Decomposition<V(==)> = Decomposition(bags: seq<NamedBag<V>>, edges: set<(set<V>, set<V>)>) {
    function Contents(): (cs: seq<set<V>>)
      ensures |cs| == |bags| && forall i | 0 <= i < |bags| :: cs[i] == bags[i].contents
    {
      seq(|bags|, i requires 0 <= i < |bags| => bags[i].contents)
    }

    /** The graph over bag contents. */
    function Tree(): Graph<set<V>> {
      Graph(set b | b in bags :: b.contents, edges)
    }

    /** What the library's simple graph guarantees: no bag twice, no loop, no parallel edge. */
    ghost predicate WellFormed() {
      NoDups(Contents()) && Tree().IsSimple()
    }
  }

  /** The library refuses a vertex it does not hold, and an edge from a bag to itself. */
  datatype DecompositionError<V> = NoSuchVertex(vertex: V) | SelfLoop

  /** The decimal digit for `d`. */
  function Digit(d: nat): char
    requires d < 10
  {
    ('0' as int + d) as char
  }

  /** The decimal numeral of `n`, as the name supplier prints its counter. */
  function Decimal(n: nat): (s: string)
    ensures |s| >= 1 && (|s| == 1 <==> n < 10)
    decreases n
  {
    if n < 10 then [Digit(n)] else Decimal(n / 10) + [Digit(n % 10)]
  }

  /** Different counters give different numerals. */
  lemma {:induction false} DecimalInjective(a: nat, b: nat)
    requires Decimal(a) == Decimal(b)
    ensures a == b
    decreases a
  {
    if a >= 10 && b >= 10 {
      var sa, sb := Decimal(a), Decimal(b);
      assert sa[|sa| - 1] == Digit(a % 10) && sb[|sb| - 1] == Digit(b % 10);
      assert sa[..|sa| - 1] == Decimal(a / 10) && sb[..|sb| - 1] == Decimal(b / 10);
      DecimalInjective(a / 10, b / 10);
    } else {
      assert Decimal(a)[0] == Digit(a) && Decimal(b)[0] == Digit(b);
    }
  }

  /** The name of the bag made from the `count`-th record processed. */
  function BagName(count: nat): string {
    "N" + Decimal(count)
  }

  /** Bags made from different records have different names. */
  lemma BagNamesDistinct(a: nat, b: nat)
    requires a != b
    ensures BagName(a) != BagName(b)
  {
    if BagName(a) == BagName(b) {
      assert BagName(a)[1..] == Decimal(a) && BagName(b)[1..] == Decimal(b);
      DecimalInjective(a, b);
    }
  }

  /** The bag of a record: the vertex together with its neighbours. */
  function BagOf<V>(r: Record<V>): set<V> {
    (set u | u in r.neighbors) + {r.vertex}
  }

  /** The position of the first bag, in insertion order, that holds all of `ns`. */
  function FirstContaining<V>(cs: seq<set<V>>, ns: set<V>): (k: Option<nat>)
    ensures k.Some? ==> k.value < |cs| && ns <= cs[k.value] && forall j | 0 <= j < k.value :: !(ns <= cs[j])
    ensures k.None? ==> forall j | 0 <= j < |cs| :: !(ns <= cs[j])
  {
    if cs == [] then None
    else if ns <= cs[0] then Some(0)
    else
      match FirstContaining(cs[1..], ns)
      case None => None
      case Some(k) => Some(k + 1)
  }

  /**
   * Processing one record: its bag is added (a bag with the same contents
   * is the same vertex), and unless it is the first bag it is joined to
   * the first bag holding the record's neighbours, or to the first bag of
   * all when none does.  Joining a bag to itself is refused.
   */
  function Attach<V>(d: Decomposition<V>, r: Record<V>, count: nat): Result<Decomposition<V>, DecompositionError<V>> {
    var nb := BagOf(r);
    if d.bags == [] then Success(Decomposition([NamedBag(BagName(count), nb)], {}))
    else
      var parent := match FirstContaining(d.Contents(), set u | u in r.neighbors)
                    case Some(k) => d.bags[k].contents
                    case None => d.bags[0].contents;
      var bags := if nb in d.Tree().vertices then d.bags else d.bags + [NamedBag(BagName(count), nb)];
      if parent == nb then Failure(SelfLoop)
      else if (parent, nb) in d.edges || (nb, parent) in d.edges then Success(Decomposition(bags, d.edges))
      else Success(Decomposition(bags, d.edges + {(parent, nb)}))
  }

  /** The decomposition after processing the records of `q`, in that order. */
  function Assemble<V>(q: seq<Record<V>>): Result<Decomposition<V>, DecompositionError<V>>
    decreases |q|
  {
    if q == [] then Success(Decomposition([], {}))
    else
      match Assemble(q[..|q| - 1])
      case Failure(e) => Failure(e)
      case Success(d) => Attach(d, q[|q| - 1], |q| - 1)
  }

  /** Once processing fails, later records do not change the outcome. */
  lemma {:induction false} AssembleFailure<V>(q: seq<Record<V>>, n: nat)
    requires n <= |q| && Assemble(q[..n]).Failure?
    ensures Assemble(q) == Assemble(q[..n])
    decreases |q| - n
  {
    if n < |q| {
      assert q[..n + 1][..n] == q[..n];
      AssembleFailure(q, n + 1);
    } else {
      assert q[..n] == q;
    }
  }

  /** The largest bag size, if there is any bag. */
  function LargestBag<V>(bags: seq<NamedBag<V>>): (m: Option<nat>)
    ensures m.None? <==> bags == []
    ensures m.Some? ==> (forall b | b in bags :: |b.contents| <= m.value) && exists b | b in bags :: |b.contents| == m.value
  {
    if bags == [] then None
    else
      match LargestBag(bags[1..])
      case None => Some(|bags[0].contents|)
      case Some(m) => Some(if |bags[0].contents| >= m then |bags[0].contents| else m)
  }

  /**
   * The width of a decomposition: the size of its largest bag, less one;
   * 0 for a decomposition without bags.
   */
  function Treewidth<V>(d: Decomposition<V>): (w: int)
    ensures d.bags == [] ==> w == 0
    ensures forall b | b in d.bags :: |b.contents| - 1 <= w
    ensures d.bags != [] ==> exists b | b in d.bags :: w == |b.contents| - 1
  {
    match LargestBag(d.bags)
    case None => 1 - 1
    case Some(m) => m - 1
  }

  /** A width that bounds every bag and that one bag attains is the decomposition's width. */
  lemma TreewidthExact<V>(d: Decomposition<V>, w: int, i: nat)
    requires forall j | 0 <= j < |d.bags| :: |d.bags[j].contents| - 1 <= w
    requires i < |d.bags| && |d.bags[i].contents| - 1 == w
    ensures Treewidth(d) == w
  {
    var b :| b in d.bags && Treewidth(d) == |b.contents| - 1;
    assert d.bags[i] in d.bags;
  }

  /**
   * `rs` records eliminating the vertices of `o` in turn from `g`: record i
   * is o[i] with a listing of its neighbours in the graph left after o[..i].
   */
  ghost predicate RecordsOf<V>(g: Graph<V>, o: seq<V>, fill: bool, rs: seq<Record<V>>) {
    && |rs| == |o|
    && forall i | 0 <= i < |o| ::
         && rs[i].vertex == o[i]
         && o[i] in After(g, o[..i], fill).vertices
         && Lists(rs[i].neighbors, After(g, o[..i], fill).Neighbors(o[i]))
  }

  /** Recording one more elimination. */
  lemma RecordsSnoc<V>(g: Graph<V>, o: seq<V>, fill: bool, rs: seq<Record<V>>, r: Record<V>)
    requires RecordsOf(g, o, fill, rs)
    requires r.vertex in After(g, o, fill).vertices && Lists(r.neighbors, After(g, o, fill).Neighbors(r.vertex))
    ensures RecordsOf(g, o + [r.vertex], fill, rs + [r])
  {
    var o', rs' := o + [r.vertex], rs + [r];
    forall i | 0 <= i < |o'|
      ensures rs'[i].vertex == o'[i] && o'[i] in After(g, o'[..i], fill).vertices
      ensures Lists(rs'[i].neighbors, After(g, o'[..i], fill).Neighbors(o'[i]))
    {
      if i < |o| {
        assert o'[..i] == o[..i];
      } else {
        assert o'[..i] == o;
      }
    }
  }

  /** Recording and eliminating one more vertex keeps the replay of the ordering in step with the working graph. */
  lemma RecordStep<V>(g: Graph<V>, o: seq<V>, fill: bool, rs: seq<Record<V>>, c0: Graph<V>, c1: Graph<V>, r: Record<V>)
    requires g.IsSimple() && c0.IsSimple() && Width(g, o, fill).Some? && RecordsOf(g, o, fill, rs)
    requires Same(c0, After(g, o, fill)) && r.vertex in c0.vertices && Lists(r.neighbors, c0.Neighbors(r.vertex))
    requires Same(c1, Step(c0, r.vertex, fill))
    ensures Width(g, o + [r.vertex], fill).Some? && Same(c1, After(g, o + [r.vertex], fill))
    ensures RecordsOf(g, o + [r.vertex], fill, rs + [r])
  {
    AfterFacts(g, o, fill);
    WidthStep(g, o, r.vertex, fill, Width(g, o, fill).value, c0, c1);
    SameNeighbors(c0, After(g, o, fill), r.vertex);
    RecordsSnoc(g, o, fill, rs, r);
  }

}
