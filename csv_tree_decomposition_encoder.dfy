/**
 * The text form of a tree decomposition: one "s,t," line per tree edge,
 * naming the two bags it joins, then one "name,,m1;m2;..." line per bag
 * listing its vertices separated by ';'.
 */
module CsvTreeDecompositionEncoder {
  import opened Wrappers
  import opened Seqs
  import opened Graphs
  import opened Util
  import opened GraphExtensions
  import opened Decompositions
  import opened CsvGraphParser

  predicate IsSemicolon(c: char) {
    c == ';'
  }

  predicate NoSemicolon(s: string) {
    forall i | 0 <= i < |s| :: !IsSemicolon(s[i])
  }

  /** The texts of `parts` with a ';' between each two, as `Collectors.joining(";")` builds them. */
  function Join(parts: seq<string>): string
    decreases |parts|
  {
    if parts == [] then []
    else if |parts| == 1 then parts[0]
    else parts[0] + ";" + Join(parts[1..])
  }

  /** The pieces of `s` between semicolons; an empty text is one empty piece. */
  function Split(s: string): (parts: seq<string>)
    ensures |parts| >= 1
    decreases |s|
  {
    match IndexWhere(s, IsSemicolon)
    case None => [s]
    case Some(k) => [s[..k]] + Split(s[k + 1..])
  }

  /** Splitting the joined texts gives them back, when there is at least one and none holds a ';'. */
  lemma {:induction false} SplitJoin(parts: seq<string>)
    requires parts != [] && forall p | p in parts :: NoSemicolon(p)
    ensures Split(Join(parts)) == parts
    decreases |parts|
  {
    assert parts[0] in parts;
    if |parts| == 1 {
      assert IndexWhere(parts[0], IsSemicolon).None?;
    } else {
      var text := Join(parts);
      var first := parts[0];
      assert text == first + ";" + Join(parts[1..]);
      assert text[|first|] == ';' && forall j | 0 <= j < |first| :: text[j] == first[j];
      IndexWhereAt(text, IsSemicolon, |first|);
      assert text[..|first|] == first && text[|first| + 1..] == Join(parts[1..]);
      SplitJoin(parts[1..]);
    }
  }

  /** A joined text holds a line break only where one of its parts does. */
  lemma {:induction false} JoinUnbroken(parts: seq<string>)
    requires forall p | p in parts :: NoLineBreak(p)
    ensures NoLineBreak(Join(parts))
    decreases |parts|
  {
    if |parts| > 1 {
      assert parts[0] in parts;
      JoinUnbroken(parts[1..]);
      var first, rest := parts[0], Join(parts[1..]);
      var text := first + ";" + rest;
      forall i | 0 <= i < |text| ensures !IsLineBreak(text[i]) {
        if i < |first| {
          assert text[i] == first[i];
        } else if i > |first| {
          assert text[i] == rest[i - |first| - 1];
        }
      }
    } else if |parts| == 1 {
      assert parts[0] in parts;
    }
  }

  /** The texts `show` gives the members of a listing, in order. */
  function Shown<V>(members: seq<V>, show: V -> string): (ts: seq<string>)
    ensures |ts| == |members| && forall i | 0 <= i < |members| :: ts[i] == show(members[i])
  {
    seq(|members|, i requires 0 <= i < |members| => show(members[i]))
  }

  /** The members of a bag as one field, in the given iteration order, separated by ';'. */
  function SemicolonList<V>(members: seq<V>, show: V -> string): string {
    Join(Shown(members, show))
  }

  /** The name of the bag whose contents are `c`: the first such bag in insertion order. */
  function NameOf<V>(bags: seq<NamedBag<V>>, c: set<V>): (name: string)
    requires exists b | b in bags :: b.contents == c
    ensures exists i | 0 <= i < |bags| :: bags[i].contents == c && bags[i].name == name && forall j | 0 <= j < i :: bags[j].contents != c
  {
    if bags[0].contents == c then bags[0].name
    else
      assert exists b | b in bags[1..] :: b.contents == c by {
        var b :| b in bags && b.contents == c;
        var i :| 0 <= i < |bags| && bags[i] == b;
        assert bags[1..][i - 1] == b;
      }
      var name := NameOf(bags[1..], c);
      assert forall i | 0 <= i < |bags| - 1 :: bags[1..][i] == bags[i + 1];
      name
  }

  /** Both ends of an edge of a simple tree graph are bags. */
  lemma EdgeEnds<V>(d: Decomposition<V>, v: Vector2<set<V>>)
    requires d.Tree().IsSimple() && v in EdgeVectorSet(d.Tree())
    ensures exists b | b in d.bags :: b.contents == v.first
    ensures exists b | b in d.bags :: b.contents == v.second
  {
    var e :| e in d.edges && v == Vector2(e.0, e.1);
    assert e.0 in d.Tree().vertices && e.1 in d.Tree().vertices;
  }

  /** The line of one tree edge: the names of the two bags it joins. */
  function EdgeLine<V>(d: Decomposition<V>, v: Vector2<set<V>>): string
    requires d.Tree().IsSimple() && v in EdgeVectorSet(d.Tree())
  {
    EdgeEnds(d, v);
    EdgeText(Vector2(NameOf(d.bags, v.first), NameOf(d.bags, v.second)))
  }

  /** The line of one bag: its name, an empty field, and its members. */
  function BagLine<V>(b: NamedBag<V>, members: seq<V>, show: V -> string): string {
    b.name + ",," + SemicolonList(members, show)
  }

  /** The edge lines, in the order the edge vectors are listed. */
  function TreeEdgeLines<V>(d: Decomposition<V>, vectors: seq<Vector2<set<V>>>): (ls: seq<string>)
    requires d.Tree().IsSimple() && Lists(vectors, EdgeVectorSet(d.Tree()))
    ensures |ls| == |vectors| && forall i | 0 <= i < |vectors| :: ls[i] == EdgeLine(d, vectors[i])
  {
    seq(|vectors|, i requires 0 <= i < |vectors| => EdgeLine(d, vectors[i]))
  }

  /** The bag lines, in insertion order, each bag's members in the order `listing` gives. */
  function BagLines<V>(d: Decomposition<V>, listing: seq<seq<V>>, show: V -> string): (ls: seq<string>)
    requires |listing| == |d.bags|
    ensures |ls| == |d.bags| && forall i | 0 <= i < |d.bags| :: ls[i] == BagLine(d.bags[i], listing[i], show)
  {
    seq(|d.bags|, i requires 0 <= i < |d.bags| => BagLine(d.bags[i], listing[i], show))
  }

  /** A listing, per bag, of its members. */
  predicate MemberListing<V>(d: Decomposition<V>, listing: seq<seq<V>>) {
    |listing| == |d.bags| && forall i | 0 <= i < |d.bags| :: Lists(listing[i], d.bags[i].contents)
  }

  /**
   * Encodes a decomposition: the edge lines, then the bag lines.  The
   * iteration orders of the edge set and of each bag are given as `vectors`
   * and `listing`; `show` is the vertices' `toString`.
   */
  function Encode<V>(d: Decomposition<V>, vectors: seq<Vector2<set<V>>>, listing: seq<seq<V>>, show: V -> string): string
    requires d.Tree().IsSimple() && Lists(vectors, EdgeVectorSet(d.Tree())) && MemberListing(d, listing)
  {
    JoinLines(TreeEdgeLines(d, vectors) + BagLines(d, listing, show))
  }

  /** Texts the format carries unchanged inside a line. */
  predicate Unbroken<V>(d: Decomposition<V>, show: V -> string) {
    && (forall b | b in d.bags :: NoLineBreak(b.name))
    && (forall b, x | b in d.bags && x in b.contents :: NoLineBreak(show(x)))
  }

  /** A bag line holds no line break when neither the name nor the members' texts do. */
  lemma BagLineUnbroken<V>(b: NamedBag<V>, members: seq<V>, show: V -> string)
    requires NoLineBreak(b.name) && forall x | x in members :: NoLineBreak(show(x))
    ensures NoLineBreak(BagLine(b, members, show))
  {
    var ts := Shown(members, show);
    forall t | t in ts ensures NoLineBreak(t) {
      var i :| 0 <= i < |ts| && ts[i] == t;
      assert members[i] in members;
    }
    JoinUnbroken(ts);
    var list := SemicolonList(members, show);
    var line := BagLine(b, members, show);
    forall i | 0 <= i < |line| ensures !IsLineBreak(line[i]) {
      if i < |b.name| {
        assert line[i] == b.name[i];
      } else if i >= |b.name| + 2 {
        assert line[i] == list[i - |b.name| - 2];
      }
    }
  }

  /** An edge line holds no line break when the bag names do not. */
  lemma EdgeLineUnbroken<V>(d: Decomposition<V>, v: Vector2<set<V>>)
    requires d.Tree().IsSimple() && v in EdgeVectorSet(d.Tree())
    requires forall b | b in d.bags :: NoLineBreak(b.name)
    ensures NoLineBreak(EdgeLine(d, v))
  {
    EdgeEnds(d, v);
    var s, t := NameOf(d.bags, v.first), NameOf(d.bags, v.second);
    assert NoLineBreak(s) && NoLineBreak(t);
    FieldsUnbroken(s, t);
  }

  /** No encoded line holds a line break. */
  lemma EncodedUnbroken<V>(d: Decomposition<V>, vectors: seq<Vector2<set<V>>>, listing: seq<seq<V>>, show: V -> string)
    requires d.Tree().IsSimple() && Lists(vectors, EdgeVectorSet(d.Tree())) && MemberListing(d, listing)
    requires Unbroken(d, show)
    ensures forall l | l in TreeEdgeLines(d, vectors) + BagLines(d, listing, show) :: NoLineBreak(l)
  {
    var es, bs := TreeEdgeLines(d, vectors), BagLines(d, listing, show);
    forall i | 0 <= i < |es| ensures NoLineBreak(es[i]) {
      assert vectors[i] in vectors;
      EdgeLineUnbroken(d, vectors[i]);
    }
    forall i | 0 <= i < |bs| ensures NoLineBreak(bs[i]) {
      assert d.bags[i] in d.bags;
      assert forall x | x in listing[i] :: x in d.bags[i].contents;
      BagLineUnbroken(d.bags[i], listing[i], show);
    }
    forall l | l in es + bs ensures NoLineBreak(l) {
      var i :| 0 <= i < |es + bs| && (es + bs)[i] == l;
      if i >= |es| {
        assert l == bs[i - |es|];
      }
    }
  }

  /**
   * The encoding has one line per tree edge, then one line per bag in
   * insertion order, provided no bag name and no member's text holds a
   * line break.
   */
  lemma EncodeLines<V>(d: Decomposition<V>, vectors: seq<Vector2<set<V>>>, listing: seq<seq<V>>, show: V -> string)
    requires d.Tree().IsSimple() && Lists(vectors, EdgeVectorSet(d.Tree())) && MemberListing(d, listing)
    requires Unbroken(d, show)
    ensures |vectors| == |d.edges|
    ensures var ls := Lines(Encode(d, vectors, listing, show));
      && |ls| == |vectors| + |d.bags|
      && (forall i | 0 <= i < |vectors| :: ls[i] == EdgeLine(d, vectors[i]))
      && (forall i | 0 <= i < |d.bags| :: ls[|vectors| + i] == BagLine(d.bags[i], listing[i], show))
  {
    EdgeVectorSetExact(d.Tree());
    ListsLength(vectors, EdgeVectorSet(d.Tree()));
    EncodedUnbroken(d, vectors, listing, show);
    LinesJoin(TreeEdgeLines(d, vectors) + BagLines(d, listing, show));
  }

  /** Every tree edge has its line among the edge lines: the names of its two bags, in the edge's stored orientation. */
  lemma EdgeLinesCover<V>(d: Decomposition<V>, vectors: seq<Vector2<set<V>>>, listing: seq<seq<V>>, show: V -> string, e: (set<V>, set<V>))
    requires d.Tree().IsSimple() && Lists(vectors, EdgeVectorSet(d.Tree())) && MemberListing(d, listing)
    requires Unbroken(d, show) && e in d.edges
    ensures EdgeLine(d, Vector2(e.0, e.1)) in Lines(Encode(d, vectors, listing, show))
  {
    var v := Vector2(e.0, e.1);
    assert v in EdgeVectorSet(d.Tree());
    assert v in vectors;
    var i :| 0 <= i < |vectors| && vectors[i] == v;
    EncodeLines(d, vectors, listing, show);
    assert Lines(Encode(d, vectors, listing, show))[i] == EdgeLine(d, v);
  }

  /** A numeral is made of decimal digits only. */
  lemma {:induction false} DecimalDigits(n: nat)
    ensures forall i | 0 <= i < |Decimal(n)| :: '0' <= Decimal(n)[i] <= '9'
    decreases n
  {
    if n >= 10 {
      DecimalDigits(n / 10);
      var s := Decimal(n);
      assert s == Decimal(n / 10) + [Digit(n % 10)];
      assert forall i | 0 <= i < |s| - 1 :: s[i] == Decimal(n / 10)[i];
    }
  }

  /** The names the decomposition gives its bags hold no ',', no ';' and no line break. */
  lemma BagNamePlain(n: nat)
    ensures NoLineBreak(BagName(n)) && NoSemicolon(BagName(n))
    ensures forall i | 0 <= i < |BagName(n)| :: BagName(n)[i] != ','
  {
    DecimalDigits(n);
    var s := BagName(n);
    assert forall i | 1 <= i < |s| :: s[i] == Decimal(n)[i - 1];
  }

  /** What a reader makes of a bag line: the name before the first ',', and the ';'-separated members after the empty field. */
  function ReadBagLine(line: string): Option<(string, seq<string>)> {
    match IndexWhere(line, c => c == ',')
    case None => None
    case Some(k) =>
      if k + 1 < |line| && line[k + 1] == ',' then Some((line[..k], Split(line[k + 2..])))
      else None
  }

  /**
   * A bag line is read back as its name and its members' texts, in the
   * listing's order, when the name holds no ',', the texts hold no ';' and
   * the bag is not empty.
   */
  lemma BagLineRead<V>(b: NamedBag<V>, members: seq<V>, show: V -> string)
    requires forall i | 0 <= i < |b.name| :: b.name[i] != ','
    requires members != [] && forall x | x in members :: NoSemicolon(show(x))
    ensures ReadBagLine(BagLine(b, members, show)) == Some((b.name, Shown(members, show)))
  {
    var line := BagLine(b, members, show);
    var list := SemicolonList(members, show);
    assert line[|b.name|] == ',' && line[|b.name| + 1] == ',';
    assert forall j | 0 <= j < |b.name| :: line[j] == b.name[j];
    IndexWhereAt(line, c => c == ',', |b.name|);
    assert line[..|b.name|] == b.name && line[|b.name| + 2..] == list;
    var ts := Shown(members, show);
    forall t | t in ts ensures NoSemicolon(t) {
      var i :| 0 <= i < |ts| && ts[i] == t;
      assert members[i] in members;
    }
    SplitJoin(ts);
  }

  /** An empty bag and a bag of one member shown as the empty text are written alike. */
  lemma EmptyBagAmbiguous<V>(b: NamedBag<V>, x: V, show: V -> string)
    requires show(x) == ""
    ensures BagLine(b, [], show) == BagLine(b, [x], show)
  {
    assert Shown([x], show) == [""];
  }
}
