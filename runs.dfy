/**
 * A heuristic's run as the trace of the single-vertex results it handed
 * out.  A trace is played legally when every result names a vertex of the
 * graph the earlier results left, with that vertex's degree there; the
 * framework's ordering and width are folds over the trace.
 */
module Runs {
  import opened Wrappers
  import opened Seqs
  import opened Graphs
  import opened GraphExtensions
  import opened EliminationResults
  import opened Replays

  /** The vertices the single-vertex results of the trace hand out, in turn. */
  function Handed<V>(turns: seq<EliminationResult<V>>): seq<V>
    decreases |turns|
  {
    if turns == [] then []
    else
      var r := turns[|turns| - 1];
      var p := Handed(turns[..|turns| - 1]);
      if r.IsVertexResult() then p + [r.vertex] else p
  }

  /**
   * The ordering the framework builds from the trace: an appended vertex
   * goes to the tail, a prepended one to the head.
   */
  function Placement<V>(turns: seq<EliminationResult<V>>): seq<V>
    decreases |turns|
  {
    if turns == [] then []
    else
      var r := turns[|turns| - 1];
      var p := Placement(turns[..|turns| - 1]);
      if r.VertexPrepend? then [r.vertex] + p
      else if r.VertexAppend? then p + [r.vertex]
      else p
  }

  /** The running maximum of the reported degrees, starting from 0. */
  function DegreeFold<V>(turns: seq<EliminationResult<V>>): int
    decreases |turns|
  {
    if turns == [] then 0
    else
      var r := turns[|turns| - 1];
      var p := DegreeFold(turns[..|turns| - 1]);
      if r.IsVertexResult() then Max(p, r.degree) else p
  }

  /**
   * `r` is a legal single-vertex answer on `c`: a vertex of `c` with its
   * degree there, appended exactly when the heuristic eliminates with fill
   * edges.
   */
  predicate Proposed<V>(c: Graph<V>, fill: bool, r: EliminationResult<V>) {
    && r.IsVertexResult()
    && r.vertex in c.vertices
    && r.degree == c.Degree(r.vertex)
    && (r.VertexAppend? <==> fill)
  }

  /** Every result of the trace is a legal answer on what the results before it left of `g`. */
  ghost predicate Played<V>(g: Graph<V>, fill: bool, turns: seq<EliminationResult<V>>)
    decreases |turns|
  {
    || turns == []
    || (var p := turns[..|turns| - 1];
        Played(g, fill, p) && Proposed(After(g, Handed(p), fill), fill, turns[|turns| - 1]))
  }

  /** Adding one result to the trace extends each fold by that result. */
  lemma TraceSnoc<V>(g: Graph<V>, fill: bool, turns: seq<EliminationResult<V>>, r: EliminationResult<V>)
    ensures Handed(turns + [r]) == if r.IsVertexResult() then Handed(turns) + [r.vertex] else Handed(turns)
    ensures Placement(turns + [r]) ==
              if r.VertexPrepend? then [r.vertex] + Placement(turns)
              else if r.VertexAppend? then Placement(turns) + [r.vertex]
              else Placement(turns)
    ensures DegreeFold(turns + [r]) == if r.IsVertexResult() then Max(DegreeFold(turns), r.degree) else DegreeFold(turns)
    ensures Played(g, fill, turns + [r]) <==> Played(g, fill, turns) && Proposed(After(g, Handed(turns), fill), fill, r)
  {
    assert (turns + [r])[..|turns|] == turns;
  }

  /** In a legal trace the i-th vertex handed out is the vertex of the i-th result. */
  lemma {:induction false} PlayedHanded<V>(g: Graph<V>, fill: bool, turns: seq<EliminationResult<V>>)
    requires Played(g, fill, turns)
    ensures |Handed(turns)| == |turns|
    ensures forall i | 0 <= i < |turns| :: turns[i].IsVertexResult() && Handed(turns)[i] == turns[i].vertex
  {
    if turns != [] {
      var p := turns[..|turns| - 1];
      PlayedHanded(g, fill, p);
      assert turns == p + [turns[|turns| - 1]];
    }
  }

  /**
   * The degree fold of a legal trace is the width of replaying its
   * handed-out vertices on `g`: each reported degree is the degree the
   * vertex has at its turn of the replay.
   */
  lemma {:induction false} PlayedWidth<V>(g: Graph<V>, fill: bool, turns: seq<EliminationResult<V>>)
    requires g.IsSimple() && Played(g, fill, turns)
    ensures Width(g, Handed(turns), fill) == Some(DegreeFold(turns))
  {
    if turns != [] {
      var p := turns[..|turns| - 1];
      var r := turns[|turns| - 1];
      PlayedWidth(g, fill, p);
      assert turns == p + [r];
      TraceSnoc(g, fill, p, r);
      assert Handed(turns)[..|Handed(turns)| - 1] == Handed(p);
    }
  }

  /**
   * The placement fold of a legal trace is the hand-out order when the
   * heuristic fills (it only appends) and its reversal otherwise (it only
   * prepends).
   */
  lemma {:induction false} PlayedPlacement<V>(g: Graph<V>, fill: bool, turns: seq<EliminationResult<V>>)
    requires Played(g, fill, turns)
    ensures if fill then Placement(turns) == Handed(turns) else Placement(turns) == Reverse(Handed(turns))
  {
    if turns != [] {
      var p := turns[..|turns| - 1];
      var r := turns[|turns| - 1];
      PlayedPlacement(g, fill, p);
      assert turns == p + [r];
      TraceSnoc(g, fill, p, r);
      ReverseSnoc(Handed(p), r.vertex);
    }
  }

  /** A legal trace hands out each vertex of `g` at most once: exactly those its replay removed. */
  lemma PlayedLists<V>(g: Graph<V>, fill: bool, turns: seq<EliminationResult<V>>)
    requires g.IsSimple() && Played(g, fill, turns)
    ensures Lists(Handed(turns), g.vertices - After(g, Handed(turns), fill).vertices)
  {
    PlayedWidth(g, fill, turns);
    WidthOfListing(g, Handed(turns), fill);
    AfterFacts(g, Handed(turns), fill);
  }
}
