/** The outcome of one step of an elimination heuristic. */
module EliminationResults {

  datatype EliminationResult<V> =
    /** Eliminate `vertex` next and put it at the tail of the ordering; `degree` is the width it contributes. */
    | VertexAppend(vertex: V, degree: int)
    /** Eliminate `vertex` next and put it at the head of the ordering. */
    | VertexPrepend(vertex: V, degree: int)
    /** The remaining vertices all go to the tail at once, and the run ends. */
    | FinalAppend(vertices: set<V>)
    /** Nothing is left; the run ends. */
    | Empty
  {
    /** The two single-vertex outcomes, which carry a vertex and a degree. */
    predicate IsVertexResult() {
      VertexAppend? || VertexPrepend?
    }
  }
}
