/**
 * The line-based edge-list format of graph files.  Each line names the two
 * endpoints of an edge, separated by ',' or '>'; the parser builds a simple
 * graph of vertex names from them, and the encoder writes a graph back as
 * one "s,t," line per edge followed by one "v,," line per vertex without
 * an edge.
 */
module CsvGraphParser {
  import opened Wrappers
  import opened Seqs
  import opened Graphs
  import opened Util
  import opened GraphExtensions

  /** The characters Java's `Character.isWhitespace` accepts, which `String.strip` removes. */
  predicate IsWhitespace(c: char) {
    || c == ' ' || '\t' <= c <= '\r' || '\U{1C}' <= c <= '\U{1F}'
    || c == '\U{1680}' || '\U{2000}' <= c <= '\U{2006}' || '\U{2008}' <= c <= '\U{200A}'
    || c == '\U{2028}' || c == '\U{2029}' || c == '\U{205F}' || c == '\U{3000}'
  }

  predicate IsLineBreak(c: char) {
    c == '\n' || c == '\r'
  }

  /** The characters of the split pattern "[,>]". */
  predicate IsSeparator(c: char) {
    c == ',' || c == '>'
  }

  /** The position of the first character of `s` satisfying `p`. */
  function IndexWhere(s: string, p: char -> bool): (k: Option<nat>)
    ensures k.Some? ==> k.value < |s| && p(s[k.value]) && forall j | 0 <= j < k.value :: !p(s[j])
    ensures k.None? ==> forall j | 0 <= j < |s| :: !p(s[j])
  {
    if s == [] then None
    else if p(s[0]) then Some(0)
    else
      match IndexWhere(s[1..], p)
      case None => None
      case Some(k) => Some(k + 1)
  }

  /** The first match is the one every earlier position misses. */
  lemma IndexWhereAt(s: string, p: char -> bool, k: nat)
    requires k < |s| && p(s[k]) && forall j | 0 <= j < k :: !p(s[j])
    ensures IndexWhere(s, p) == Some(k)
  {
    var r := IndexWhere(s, p);
    assert r.Some?;
  }

  /**
   * The pieces of `source` between line breaks.  A final break opens no
   * further piece.  A "\r\n" pair yields an empty piece where Java's
   * `String.lines` yields none; the parser drops empty lines, so it sees the
   * same lines either way.
   */
  function Lines(source: string): seq<string>
    decreases |source|
  {
    if source == [] then []
    else
      match IndexWhere(source, IsLineBreak)
      case None => [source]
      case Some(k) => [source[..k]] + Lines(source[k + 1..])
  }

  /** Each line followed by a line feed. */
  function JoinLines(ls: seq<string>): string {
    if ls == [] then [] else ls[0] + "\n" + JoinLines(ls[1..])
  }

  predicate NoLineBreak(s: string) {
    forall i | 0 <= i < |s| :: !IsLineBreak(s[i])
  }

  /** Joining lines without breaks and splitting the text again gives the lines back. */
  lemma {:induction false} LinesJoin(ls: seq<string>)
    requires forall l | l in ls :: NoLineBreak(l)
    ensures Lines(JoinLines(ls)) == ls
  {
    if ls != [] {
      var text := JoinLines(ls);
      var rest := JoinLines(ls[1..]);
      assert text == ls[0] + "\n" + rest;
      assert ls[0] in ls && NoLineBreak(ls[0]);
      assert text[|ls[0]|] == '\n';
      assert forall j | 0 <= j < |ls[0]| :: text[j] == ls[0][j];
      IndexWhereAt(text, IsLineBreak, |ls[0]|);
      assert text[..|ls[0]|] == ls[0] && text[|ls[0]| + 1..] == rest;
      LinesJoin(ls[1..]);
    }
  }

  /** `s` without its leading whitespace. */
  function StripLeading(s: string): (r: string)
    ensures |r| <= |s| && r == s[|s| - |r|..]
    ensures forall j | 0 <= j < |s| - |r| :: IsWhitespace(s[j])
    ensures r != [] ==> !IsWhitespace(r[0])
  {
    if s != [] && IsWhitespace(s[0]) then StripLeading(s[1..]) else s
  }

  /** `s` without its trailing whitespace. */
  function StripTrailing(s: string): (r: string)
    ensures |r| <= |s| && r == s[..|r|]
    ensures forall j | |r| <= j < |s| :: IsWhitespace(s[j])
    ensures r != [] ==> !IsWhitespace(r[|r| - 1])
  {
    if s != [] && IsWhitespace(s[|s| - 1]) then StripTrailing(s[..|s| - 1]) else s
  }

  /** Java's `String.strip`. */
  function Strip(s: string): string {
    StripTrailing(StripLeading(s))
  }

  /** Stripping leaves a string that neither starts nor ends with whitespace as it is. */
  lemma StripPlain(s: string)
    requires s == [] || (!IsWhitespace(s[0]) && !IsWhitespace(s[|s| - 1]))
    ensures Strip(s) == s
  {
  }

  /** Stripping twice strips no more than stripping once. */
  lemma StripIdempotent(s: string)
    ensures Strip(Strip(s)) == Strip(s)
  {
    var t := StripLeading(s);
    var r := StripTrailing(t);
    if r != [] {
      assert t[0] == r[0];
    }
    StripPlain(r);
  }

  predicate NoSeparator(s: string) {
    forall i | 0 <= i < |s| :: !IsSeparator(s[i])
  }

  /**
   * The first two pieces of `line` split on "[,>]" into at most three: the
   * text before the first separator, and the text from there up to the next
   * separator or the end.  A trailing empty piece is kept, so "a," names "a"
   * and "".  None when the line has no separator, that is fewer than two
   * pieces.
   */
  function Endpoints(line: string): Option<(string, string)> {
    match IndexWhere(line, IsSeparator)
    case None => None
    case Some(k) =>
      var rest := line[k + 1..];
      match IndexWhere(rest, IsSeparator)
      case None => Some((line[..k], rest))
      case Some(m) => Some((line[..k], rest[..m]))
  }

  /**
   * The endpoints are the text up to the first separator and the text from
   * there up to the next separator or the end; there are none exactly when
   * the line has no separator.
   */
  lemma EndpointsSpec(line: string)
    ensures Endpoints(line).None? <==> NoSeparator(line)
    ensures Endpoints(line).Some? ==>
              var (s, t) := Endpoints(line).value;
              && NoSeparator(s) && NoSeparator(t) && |s| + 1 + |t| <= |line|
              && line[..|s|] == s && IsSeparator(line[|s|]) && line[|s| + 1..|s| + 1 + |t|] == t
              && (|s| + 1 + |t| == |line| || IsSeparator(line[|s| + 1 + |t|]))
  {
  }

  /** Reading back two separator-free names written with a ',' between them. */
  lemma EndpointsOfLine(s: string, t: string, rest: string)
    requires NoSeparator(s) && NoSeparator(t) && (rest == [] || IsSeparator(rest[0]))
    ensures Endpoints(s + "," + t + rest) == Some((s, t))
  {
    var line := s + "," + t + rest;
    assert line[|s|] == ',' && forall j | 0 <= j < |s| :: line[j] == s[j];
    IndexWhereAt(line, IsSeparator, |s|);
    var after := line[|s| + 1..];
    assert after == t + rest;
    assert line[..|s|] == s;
    if rest != [] {
      assert after[|t|] == rest[0] && forall j | 0 <= j < |t| :: after[j] == t[j];
      IndexWhereAt(after, IsSeparator, |t|);
      assert after[..|t|] == t;
      assert Endpoints(line) == Some((line[..|s|], after[..|t|]));
    } else {
      assert after == t;
      assert IndexWhere(after, IsSeparator).None?;
      assert Endpoints(line) == Some((line[..|s|], after));
    }
  }

  /** The endpoints a line is read as: none when it is blank once stripped or has no separator. */
  function LineRead(line: string): Option<(string, string)> {
    var stripped := Strip(line);
    if stripped == [] then None else Endpoints(stripped)
  }

  /** Each line's reading, in order. */
  function Reads(lines: seq<string>): (os: seq<Option<(string, string)>>)
    ensures |os| == |lines|
  {
    seq(|lines|, i requires 0 <= i < |lines| => LineRead(lines[i]))
  }

  /** The values present in `os`, in order. */
  function Present<P>(os: seq<Option<P>>): seq<P>
    decreases |os|
  {
    if os == [] then []
    else
      var ps := Present(os[..|os| - 1]);
      match os[|os| - 1]
      case None => ps
      case Some(p) => ps + [p]
  }

  /** The values present in two runs are those of each, in order. */
  lemma {:induction false} PresentConcat<P>(a: seq<Option<P>>, b: seq<Option<P>>)
    ensures Present(a + b) == Present(a) + Present(b)
    decreases |b|
  {
    if b == [] {
      assert a + b == a;
    } else {
      var b' := b[..|b| - 1];
      assert (a + b)[..|a + b| - 1] == a + b';
      assert (a + b)[|a + b| - 1] == b[|b| - 1];
      PresentConcat(a, b');
    }
  }

  /** When every entry is present, all of them are collected. */
  lemma {:induction false} PresentAll<P>(os: seq<Option<P>>, ps: seq<P>)
    requires |os| == |ps| && forall i | 0 <= i < |os| :: os[i] == Some(ps[i])
    ensures Present(os) == ps
    decreases |os|
  {
    if os != [] {
      var n := |os| - 1;
      PresentAll(os[..n], ps[..n]);
      assert ps[..n] + [ps[n]] == ps;
    }
  }

  /** The endpoint pairs of the lines the parser accepts, in order. */
  function LinePairs(lines: seq<string>): seq<(string, string)> {
    Present(Reads(lines))
  }

  /** The pairs of two runs of lines are the pairs of each, in order. */
  lemma LinePairsConcat(a: seq<string>, b: seq<string>)
    ensures LinePairs(a + b) == LinePairs(a) + LinePairs(b)
  {
    assert Reads(a + b) == Reads(a) + Reads(b);
    PresentConcat(Reads(a), Reads(b));
  }

  /** Why parsing fails: an edge from a vertex to itself, which a simple graph refuses. */
  datatype ParseError = SelfLoop(vertex: string)

  /**
   * The library's `addEdgeWithVertices` on a simple graph: both endpoints
   * are added, then the edge unless they are already adjacent; a loop throws.
   */
  function AddEdgeWithVertices(g: Graph<string>, s: string, t: string): Result<Graph<string>, ParseError> {
    if s == t then Failure(SelfLoop(s))
    else Success(Graph(g.vertices + {s, t}, if g.Adjacent(s, t) then g.edges else g.edges + {(s, t)}))
  }

  /**
   * Adding an edge between two distinct names keeps a graph simple, adds the
   * two names, makes them adjacent and nothing else, and stores a new edge
   * in the orientation given.
   */
  lemma AddEdgeKeepsSimple(g: Graph<string>, s: string, t: string)
    requires g.IsSimple() && s != t
    ensures AddEdgeWithVertices(g, s, t).Success?
    ensures var h := AddEdgeWithVertices(g, s, t).value;
      && h.IsSimple() && h.vertices == g.vertices + {s, t}
      && (forall u, v :: h.Adjacent(u, v) <==> g.Adjacent(u, v) || (u, v) == (s, t) || (v, u) == (s, t))
      && (forall e | e in h.edges :: e in g.edges || e == (s, t))
  {
  }

  /** The graph built from an empty one by adding the edges of `pairs` in turn. */
  function Build(pairs: seq<(string, string)>): Result<Graph<string>, ParseError>
    decreases |pairs|
  {
    if pairs == [] then Success(Graph({}, {}))
    else
      match Build(pairs[..|pairs| - 1])
      case Failure(e) => Failure(e)
      case Success(g) => AddEdgeWithVertices(g, pairs[|pairs| - 1].0, pairs[|pairs| - 1].1)
  }

  /** Once building fails, further pairs do not change the outcome. */
  lemma {:induction false} BuildFailureStays(ps: seq<(string, string)>, qs: seq<(string, string)>)
    requires Build(ps).Failure?
    ensures Build(ps + qs) == Build(ps)
    decreases |qs|
  {
    if qs == [] {
      assert ps + qs == ps;
    } else {
      assert (ps + qs)[..|ps + qs| - 1] == ps + qs[..|qs| - 1];
      BuildFailureStays(ps, qs[..|qs| - 1]);
    }
  }

  /** Building fails exactly when some pair is a loop, and it reports the first one. */
  lemma {:induction false} BuildFails(ps: seq<(string, string)>)
    ensures Build(ps).Success? <==> forall i | 0 <= i < |ps| :: ps[i].0 != ps[i].1
    ensures Build(ps).Failure? ==>
              exists i | 0 <= i < |ps| :: ps[i].0 == ps[i].1 && Build(ps).error == SelfLoop(ps[i].0) && forall j | 0 <= j < i :: ps[j].0 != ps[j].1
    decreases |ps|
  {
    if ps != [] {
      var p := ps[..|ps| - 1];
      BuildFails(p);
      assert forall i | 0 <= i < |p| :: p[i] == ps[i];
    }
  }

  /** The endpoints named by `ps`. */
  function Named(ps: seq<(string, string)>): set<string> {
    (set p | p in ps :: p.0) + (set p | p in ps :: p.1)
  }

  /**
   * A successful build is a simple graph on the named vertices, two of them
   * adjacent exactly when some pair joins them, each edge stored in the
   * orientation of a pair.
   */
  lemma {:induction false} BuildGraph(ps: seq<(string, string)>)
    requires Build(ps).Success?
    ensures Build(ps).value.IsSimple()
    ensures Build(ps).value.vertices == Named(ps)
    ensures forall u, v :: Build(ps).value.Adjacent(u, v) <==> (u, v) in ps || (v, u) in ps
    ensures forall e | e in Build(ps).value.edges :: e in ps
    decreases |ps|
  {
    if ps != [] {
      var p := ps[..|ps| - 1];
      var last := ps[|ps| - 1];
      assert ps == p + [last];
      BuildGraph(p);
      AddEdgeKeepsSimple(Build(p).value, last.0, last.1);
      assert Named(ps) == Named(p) + {last.0, last.1};
    }
  }
  /** What one more line adds to the pairs: its endpoints, when it is not blank and has a separator. */
  lemma LinePairsStep(lines: seq<string>, k: nat)
    requires k < |lines|
    ensures LineRead(lines[k]).None? ==> LinePairs(lines[..k + 1]) == LinePairs(lines[..k])
    ensures LineRead(lines[k]).Some? ==> LinePairs(lines[..k + 1]) == LinePairs(lines[..k]) + [LineRead(lines[k]).value]
  {
    assert Reads(lines[..k + 1]) == Reads(lines[..k]) + [LineRead(lines[k])];
    PresentConcat(Reads(lines[..k]), [LineRead(lines[k])]);
    assert [LineRead(lines[k])][..0] == [];
  }

  /** A line read as nothing leaves the graph as it is. */
  lemma StepSkips(lines: seq<string>, k: nat, g: Graph<string>)
    requires k < |lines| && Build(LinePairs(lines[..k])) == Success(g) && LineRead(lines[k]).None?
    ensures Build(LinePairs(lines[..k + 1])) == Success(g)
  {
    LinePairsStep(lines, k);
  }

  /** A line read as two distinct names adds both, and the edge between them unless they are already adjacent. */
  lemma StepAdds(lines: seq<string>, k: nat, g: Graph<string>, s: string, t: string)
    requires k < |lines| && Build(LinePairs(lines[..k])) == Success(g) && LineRead(lines[k]) == Some((s, t)) && s != t
    ensures Build(LinePairs(lines[..k + 1])) == Success(Graph(g.vertices + {s} + {t}, if g.Adjacent(s, t) then g.edges else g.edges + {(s, t)}))
  {
    LinePairsStep(lines, k);
    var ps := LinePairs(lines[..k]);
    assert (ps + [(s, t)])[..|ps|] == ps;
    assert g.vertices + {s} + {t} == g.vertices + {s, t};
  }

  /** A line read as the same name twice fails with that name. */
  lemma StepLoops(lines: seq<string>, k: nat, g: Graph<string>, s: string)
    requires k < |lines| && Build(LinePairs(lines[..k])) == Success(g) && LineRead(lines[k]) == Some((s, s))
    ensures Build(LinePairs(lines[..k + 1])) == Failure(SelfLoop(s))
  {
    LinePairsStep(lines, k);
    var ps := LinePairs(lines[..k]);
    assert (ps + [(s, s)])[..|ps|] == ps;
  }

  /** A loop at line k decides the outcome of the whole parse. */
  lemma BuildFailsAt(lines: seq<string>, k: nat)
    requires k < |lines| && Build(LinePairs(lines[..k + 1])).Failure?
    ensures Build(LinePairs(lines)) == Build(LinePairs(lines[..k + 1]))
  {
    LinePairsConcat(lines[..k + 1], lines[k + 1..]);
    assert lines[..k + 1] + lines[k + 1..] == lines;
    BuildFailureStays(LinePairs(lines[..k + 1]), LinePairs(lines[k + 1..]));
  }

  /**
   * Parses the text of a graph file.  Every line is stripped; blank lines
   * and lines without a separator are skipped; every other line adds its
   * two endpoints and the edge between them.  A line naming one vertex
   * twice makes the simple graph throw, which ends parsing.
   */
  method Parse(source: string) returns (r: Result<SimpleGraph<string>, ParseError>)
    ensures Build(LinePairs(Lines(source))).Failure? ==> r.Failure? && r.error == Build(LinePairs(Lines(source))).error
    ensures Build(LinePairs(Lines(source))).Success? ==>
              r.Success? && fresh(r.value) && r.value.Valid() && r.value.Value() == Build(LinePairs(Lines(source))).value
  {
    var graph := new SimpleGraph<string>();
    var lines := Lines(source);
    var k := 0;
    while k < |lines|
      invariant 0 <= k <= |lines| && fresh(graph)
      invariant Build(LinePairs(lines[..k])) == Success(graph.Value())
    {
      ghost var g0 := graph.Value();
      var read := LineRead(lines[k]);
      if read.Some? {
        var (i, j) := read.value;
        var _ := graph.AddVertex(i);
        var _ := graph.AddVertex(j);
        if i == j {
          StepLoops(lines, k, g0, i);
          BuildFailsAt(lines, k);
          return Failure(SelfLoop(i));
        }
        var _ := graph.AddEdge(i, j);
        StepAdds(lines, k, g0, i, j);
      } else {
        StepSkips(lines, k, g0);
      }
      k := k + 1;
    }
    assert lines[..k] == lines;
    BuildGraph(LinePairs(lines));
    r := Success(graph);
  }

  /** One edge, formatted as "%s,%s,\n" less the line feed. */
  function EdgeText(v: Vector2<string>): string {
    v.first + "," + v.second + ","
  }

  /** One vertex without edges, formatted as "%s,,\n" less the line feed. */
  function IsolatedText(name: string): string {
    name + ",,"
  }

  /** The vertices some edge vector touches. */
  function Touched<V>(vectors: seq<Vector2<V>>): set<V> {
    (set v | v in vectors :: v.first) + (set v | v in vectors :: v.second)
  }

  /** The members of `vs`, in order, that are not in `connected`. */
  function Untouched<V>(vs: seq<V>, connected: set<V>): (r: seq<V>)
    ensures forall i | 0 <= i < |r| :: r[i] in vs && r[i] !in connected
    ensures forall i | 0 <= i < |vs| :: vs[i] !in connected ==> vs[i] in r
    ensures (forall i | 0 <= i < |vs| :: vs[i] in connected) ==> r == []
  {
    if vs == [] then []
    else if vs[0] in connected then Untouched(vs[1..], connected)
    else [vs[0]] + Untouched(vs[1..], connected)
  }

  /** One edge line per vector, its endpoints shown by `show`. */
  function EdgeLines<V>(vectors: seq<Vector2<V>>, show: V -> string): (ls: seq<string>)
    ensures |ls| == |vectors| && forall i | 0 <= i < |vectors| :: ls[i] == EdgeText(vectors[i].Map(show))
  {
    seq(|vectors|, i requires 0 <= i < |vectors| => EdgeText(vectors[i].Map(show)))
  }

  /** One isolated-vertex line per name, shown by `show`. */
  function IsolatedLines<V>(names: seq<V>, show: V -> string): (ls: seq<string>)
    ensures |ls| == |names| && forall i | 0 <= i < |names| :: ls[i] == IsolatedText(show(names[i]))
  {
    seq(|names|, i requires 0 <= i < |names| => IsolatedText(show(names[i])))
  }

  /** The lines of the encoding: the edge lines, then the lines of vertices no edge touches. */
  function EncodedLines<V>(vectors: seq<Vector2<V>>, vertices: seq<V>, show: V -> string): seq<string> {
    EdgeLines(vectors, show) + IsolatedLines(Untouched(vertices, Touched(vectors)), show)
  }

  /**
   * Encodes `g`.  The edge vectors and the vertices are taken in the order
   * the graph's sets iterate in, given here as `vectors` and `vertices`;
   * `show` is the vertices' `toString`.
   */
  function Encode<V>(g: Graph<V>, vectors: seq<Vector2<V>>, vertices: seq<V>, show: V -> string): string
    requires Lists(vectors, EdgeVectorSet(g)) && Lists(vertices, g.vertices)
  {
    JoinLines(EncodedLines(vectors, vertices, show))
  }

  /** The vertices the edge vectors of a graph touch are those with a neighbour. */
  lemma TouchedAdjacent<V>(g: Graph<V>, vectors: seq<Vector2<V>>)
    requires g.IsSimple() && Lists(vectors, EdgeVectorSet(g))
    ensures forall v :: v in Touched(vectors) <==> v in g.vertices && exists u :: g.Adjacent(u, v)
  {
    EdgeVectorSetExact(g);
    forall v | v in Touched(vectors) ensures v in g.vertices && exists u :: g.Adjacent(u, v) {
      var w :| w in vectors && (w.first == v || w.second == v);
      assert w in EdgeVectorSet(g);
      assert (w.first, w.second) in g.edges;
      assert g.Adjacent(w.first, w.second) && g.Adjacent(w.second, w.first);
    }
    forall v | v in g.vertices && (exists u :: g.Adjacent(u, v)) ensures v in Touched(vectors) {
      var u :| g.Adjacent(u, v);
      if (u, v) in g.edges {
        assert Vector2(u, v) in vectors;
      } else {
        assert Vector2(v, u) in vectors;
      }
    }
  }

  /** A line of two texts without breaks, each followed by ',', has no break. */
  lemma FieldsUnbroken(a: string, b: string)
    requires NoLineBreak(a) && NoLineBreak(b)
    ensures NoLineBreak(a + "," + b + ",")
  {
    var l := a + "," + b + ",";
    forall i | 0 <= i < |l| ensures !IsLineBreak(l[i]) {
      if i < |a| {
        assert l[i] == a[i];
      } else if |a| < i < |a| + 1 + |b| {
        assert l[i] == b[i - |a| - 1];
      }
    }
  }

  /** The edge lines of a graph whose vertices' texts carry no line break carry none either. */
  lemma EdgeLinesUnbroken<V>(g: Graph<V>, vectors: seq<Vector2<V>>, show: V -> string)
    requires g.IsSimple() && Lists(vectors, EdgeVectorSet(g))
    requires forall v | v in g.vertices :: NoLineBreak(show(v))
    ensures forall i | 0 <= i < |vectors| :: NoLineBreak(EdgeLines(vectors, show)[i])
  {
    forall i | 0 <= i < |vectors| ensures NoLineBreak(EdgeLines(vectors, show)[i]) {
      var w := vectors[i];
      assert w in EdgeVectorSet(g);
      assert w.first in g.vertices && w.second in g.vertices;
      FieldsUnbroken(show(w.first), show(w.second));
    }
  }

  /** The isolated-vertex lines of names whose texts carry no line break carry none either. */
  lemma IsolatedLinesUnbroken<V>(names: seq<V>, show: V -> string)
    requires forall v | v in names :: NoLineBreak(show(v))
    ensures forall i | 0 <= i < |names| :: NoLineBreak(IsolatedLines(names, show)[i])
  {
    forall i | 0 <= i < |names| ensures NoLineBreak(IsolatedLines(names, show)[i]) {
      assert names[i] in names;
      FieldsUnbroken(show(names[i]), "");
      assert show(names[i]) + "," + "" + "," == IsolatedText(show(names[i]));
    }
  }

  /** The texts of the vertices of `g` carry no line break, so neither do the encoded lines. */
  lemma EncodedLinesUnbroken<V>(g: Graph<V>, vectors: seq<Vector2<V>>, vertices: seq<V>, show: V -> string)
    requires g.IsSimple() && Lists(vectors, EdgeVectorSet(g)) && Lists(vertices, g.vertices)
    requires forall v | v in g.vertices :: NoLineBreak(show(v))
    ensures forall l | l in EncodedLines(vectors, vertices, show) :: NoLineBreak(l)
  {
    var edges := EdgeLines(vectors, show);
    var isolated := Untouched(vertices, Touched(vectors));
    var rest := IsolatedLines(isolated, show);
    EdgeLinesUnbroken(g, vectors, show);
    forall v | v in isolated ensures NoLineBreak(show(v)) {
      var k :| 0 <= k < |isolated| && isolated[k] == v;
      assert v in vertices;
    }
    IsolatedLinesUnbroken(isolated, show);
    assert EncodedLines(vectors, vertices, show) == edges + rest;
    forall l | l in edges + rest ensures NoLineBreak(l) {
      if l in edges {
        var i :| 0 <= i < |edges| && edges[i] == l;
      } else {
        var i :| 0 <= i < |rest| && rest[i] == l;
      }
    }
  }

  /**
   * The encoding has one line per edge, "s,t," with the endpoints in their
   * stored orientation, then one line "v,," per vertex without a neighbour,
   * provided no vertex's text holds a line break.
   */
  lemma EncodeLines<V>(g: Graph<V>, vectors: seq<Vector2<V>>, vertices: seq<V>, show: V -> string)
    requires g.IsSimple() && Lists(vectors, EdgeVectorSet(g)) && Lists(vertices, g.vertices)
    requires forall v | v in g.vertices :: NoLineBreak(show(v))
    ensures Lines(Encode(g, vectors, vertices, show)) == EncodedLines(vectors, vertices, show)
    ensures |vectors| == |g.edges|
    ensures forall e | e in g.edges :: EdgeText(Vector2(show(e.0), show(e.1))) in EncodedLines(vectors, vertices, show)[..|vectors|]
    ensures forall v :: v in Untouched(vertices, Touched(vectors)) <==> v in g.vertices && forall u :: !g.Adjacent(u, v)
  {
    EdgeVectorSetExact(g);
    ListsLength(vectors, EdgeVectorSet(g));
    TouchedAdjacent(g, vectors);
    EncodedLinesUnbroken(g, vectors, vertices, show);
    LinesJoin(EncodedLines(vectors, vertices, show));
    var ls := EncodedLines(vectors, vertices, show);
    forall e | e in g.edges ensures EdgeText(Vector2(show(e.0), show(e.1))) in ls[..|vectors|] {
      assert Vector2(e.0, e.1) in vectors;
      var i :| 0 <= i < |vectors| && vectors[i] == Vector2(e.0, e.1);
      assert ls[..|vectors|][i] == ls[i];
    }
  }

  /** A name the format carries unchanged: no separator, no line break, no leading whitespace. */
  predicate PlainName(s: string) {
    NoSeparator(s) && NoLineBreak(s) && (s == [] || !IsWhitespace(s[0]))
  }

  /** A line read on its own: its endpoints when it is not blank once stripped and has a separator. */
  lemma SingleLine(line: string)
    requires LineRead(line).Some?
    ensures LinePairs([line]) == [LineRead(line).value]
  {
    PresentAll(Reads([line]), [LineRead(line).value]);
  }

  /** An edge line of plain names has nothing to strip. */
  lemma EdgeTextStripped(v: Vector2<string>)
    requires PlainName(v.first) && PlainName(v.second)
    ensures Strip(EdgeText(v)) == EdgeText(v)
  {
    var line := EdgeText(v);
    assert |line| == |v.first| + |v.second| + 2 && line[|line| - 1] == ',';
    assert line[0] == if v.first == [] then ',' else v.first[0];
    assert !IsWhitespace(line[0]) && !IsWhitespace(line[|line| - 1]);
    StripPlain(line);
  }

  /** An edge line is read as its pair. */
  lemma EdgeTextPair(v: Vector2<string>)
    requires PlainName(v.first) && PlainName(v.second)
    ensures LineRead(EdgeText(v)) == Some((v.first, v.second))
  {
    EdgeTextStripped(v);
    EndpointsOfLine(v.first, v.second, ",");
  }

  /** The edge lines of `vectors`. */
  function EdgeTexts(vectors: seq<Vector2<string>>): (ts: seq<string>)
    ensures |ts| == |vectors| && forall i | 0 <= i < |vectors| :: ts[i] == EdgeText(vectors[i])
  {
    seq(|vectors|, i requires 0 <= i < |vectors| => EdgeText(vectors[i]))
  }

  /** The pairs of `vectors`. */
  function VectorPairs(vectors: seq<Vector2<string>>): (ps: seq<(string, string)>)
    ensures |ps| == |vectors| && forall i | 0 <= i < |vectors| :: ps[i] == (vectors[i].first, vectors[i].second)
  {
    seq(|vectors|, i requires 0 <= i < |vectors| => (vectors[i].first, vectors[i].second))
  }

  /** Lines each read as one pair are read, together, as those pairs in order. */
  lemma LinePairsEach(ls: seq<string>, ps: seq<(string, string)>)
    requires |ls| == |ps| && forall i | 0 <= i < |ls| :: LineRead(ls[i]) == Some(ps[i])
    ensures LinePairs(ls) == ps
  {
    PresentAll(Reads(ls), ps);
  }

  /** The edge lines of `vectors` are read as one pair per vector, in order. */
  lemma EdgeTextsPairs(vectors: seq<Vector2<string>>)
    requires forall v | v in vectors :: PlainName(v.first) && PlainName(v.second)
    ensures LinePairs(EdgeTexts(vectors)) == VectorPairs(vectors)
  {
    var ls, ps := EdgeTexts(vectors), VectorPairs(vectors);
    forall i | 0 <= i < |ls| ensures LineRead(ls[i]) == Some(ps[i]) {
      assert vectors[i] in vectors;
      EdgeTextPair(vectors[i]);
    }
    LinePairsEach(ls, ps);
  }

  /** Adding the edges of a simple graph with no isolated vertex, each once in its stored orientation, rebuilds it. */
  lemma BuildEdges(g: Graph<string>, ps: seq<(string, string)>)
    requires g.IsSimple() && forall e :: e in ps <==> e in g.edges
    requires forall v | v in g.vertices :: exists u :: g.Adjacent(u, v)
    ensures Build(ps) == Success(g)
  {
    BuildFails(ps);
    BuildGraph(ps);
    var h := Build(ps).value;
    assert h.vertices == g.vertices by {
      forall v | v in g.vertices ensures v in Named(ps) {
        var u :| g.Adjacent(u, v);
        if (u, v) in g.edges {
          assert (u, v) in ps;
        } else {
          assert (v, u) in ps;
        }
      }
    }
    forall e | e in g.edges ensures e in h.edges {
      assert h.Adjacent(e.0, e.1);
    }
    assert h.edges == g.edges;
  }

  /** Without isolated vertices and with `show` the identity on them, the encoding is the edge lines alone. */
  lemma EncodedEdgesOnly(g: Graph<string>, vectors: seq<Vector2<string>>, vertices: seq<string>, show: string -> string)
    requires g.IsSimple() && Lists(vectors, EdgeVectorSet(g)) && Lists(vertices, g.vertices)
    requires forall v | v in g.vertices :: show(v) == v
    requires forall v | v in g.vertices :: exists u :: g.Adjacent(u, v)
    ensures EncodedLines(vectors, vertices, show) == EdgeTexts(vectors)
  {
    var isolated := Untouched(vertices, Touched(vectors));
    TouchedAdjacent(g, vectors);
    assert forall i | 0 <= i < |vertices| :: vertices[i] in g.vertices;
    var edges := EdgeLines(vectors, show);
    forall i | 0 <= i < |vectors| ensures edges[i] == EdgeTexts(vectors)[i] {
      var w := vectors[i];
      assert w in EdgeVectorSet(g);
      assert w.first in g.vertices && w.second in g.vertices;
      assert w.Map(show) == w;
    }
    assert edges + IsolatedLines(isolated, show) == edges;
  }

  /** The pairs of a listing of the edge vectors of a simple graph are exactly its edges. */
  lemma VectorPairsEdges(g: Graph<string>, vectors: seq<Vector2<string>>)
    requires g.IsSimple() && Lists(vectors, EdgeVectorSet(g))
    ensures forall e :: e in VectorPairs(vectors) <==> e in g.edges
  {
    EdgeVectorSetExact(g);
    var ps := VectorPairs(vectors);
    forall e ensures e in ps <==> e in g.edges {
      if e in ps {
        var i :| 0 <= i < |ps| && ps[i] == e;
        assert vectors[i] in EdgeVectorSet(g);
      }
      if e in g.edges {
        assert Vector2(e.0, e.1) in vectors;
        var i :| 0 <= i < |vectors| && vectors[i] == Vector2(e.0, e.1);
        assert ps[i] == e;
      }
    }
  }

  /**
   * Parsing the encoding of a simple graph of plain names in which every
   * vertex has a neighbour gives back exactly that graph, each edge in its
   * stored orientation.
   */
  lemma ParseEncode(g: Graph<string>, vectors: seq<Vector2<string>>, vertices: seq<string>, show: string -> string)
    requires g.IsSimple() && Lists(vectors, EdgeVectorSet(g)) && Lists(vertices, g.vertices)
    requires forall v | v in g.vertices :: show(v) == v && PlainName(v)
    requires forall v | v in g.vertices :: exists u :: g.Adjacent(u, v)
    ensures Build(LinePairs(Lines(Encode(g, vectors, vertices, show)))) == Success(g)
  {
    EncodedEdgesOnly(g, vectors, vertices, show);
    EncodeLines(g, vectors, vertices, show);
    assert Lines(Encode(g, vectors, vertices, show)) == EdgeTexts(vectors);
    forall v | v in vectors ensures PlainName(v.first) && PlainName(v.second) {
      assert v in EdgeVectorSet(g);
    }
    EdgeTextsPairs(vectors);
    VectorPairsEdges(g, vectors);
    BuildEdges(g, VectorPairs(vectors));
  }

  /**
   * A vertex without edges does not survive the round trip: its line "a,,"
   * is read as an edge from "a" to the vertex named by the empty string.
   */
  lemma IsolatedReadsAsEdge()
    ensures Build(LinePairs(Lines(Encode(Graph({"a"}, {}), [], ["a"], s => s)))) == Success(Graph({"a", ""}, {("a", "")}))
  {
    IsolatedEncoded();
    IsolatedPairs();
    BuildOneEdge();
  }

  /** The line "a,," on its own is read as the pair of "a" and the empty string. */
  lemma IsolatedPairs()
    ensures LinePairs([IsolatedText("a")]) == [("a", "")]
  {
    IsolatedLineRead();
    LinePairsEach([IsolatedText("a")], [("a", "")]);
  }

  /** Building from the single pair of "a" and the empty string. */
  lemma BuildOneEdge()
    ensures Build([("a", "")]) == Success(Graph({"a", ""}, {("a", "")}))
  {
    var g: Graph<string> := Graph({}, {});
    assert [("a", "")][..0] == [];
    assert Build([("a", "")]) == AddEdgeWithVertices(g, "a", "");
    assert !g.Adjacent("a", "");
    assert g.vertices + {"a", ""} == {"a", ""};
    assert g.edges + {("a", "")} == {("a", "")};
  }

  /** The encoding of the one-vertex graph is the single line "a,,". */
  lemma IsolatedEncoded()
    ensures Lines(Encode(Graph({"a"}, {}), [], ["a"], s => s)) == [IsolatedText("a")]
  {
    var line := IsolatedText("a");
    assert EncodedLines<string>([], ["a"], s => s) == [line] by {
      assert Touched<string>([]) == {};
      assert Untouched(["a"], {}) == ["a"];
    }
    assert NoLineBreak(line);
    LinesJoin([line]);
  }

  /** The line "a,," names "a" and the empty string. */
  lemma IsolatedLineRead()
    ensures LineRead(IsolatedText("a")) == Some(("a", ""))
  {
    var line := IsolatedText("a");
    assert line[0] == 'a' && line[|line| - 1] == ',';
    StripPlain(line);
    EndpointsOfLine("a", "", ",");
    assert "a" + "," + "" + "," == line;
  }
}
