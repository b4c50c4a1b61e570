/** Values shared by the edge store and the shortest-path routine. */
module Types {

  /** Largest vertex count the fixed-size distance arrays hold. */
  const MaxNodes: int := 100

  /** Capacity of the edge array, of the snapshot and of the undo stack. */
  const Capacity: int := MaxNodes * MaxNodes

  /** An undirected power line between two vertices, with its loss cost. */
  datatype Edge = Edge(src: int, dest: int, weight: int)

  /** A tentative distance; `Inf` stands for the `INT_MAX` sentinel. */
  datatype Dist = Inf | Fin(n: int)

  /** The C comparison `a <= b` where `INF` compares above every finite value. */
  predicate Le(a: Dist, b: Dist) {
    b.Inf? || (a.Fin? && a.n <= b.n)
  }

  /** The C comparison `a < b` with a finite left operand. */
  predicate Lt(a: Dist, b: Dist) {
    a.Fin? && (b.Inf? || a.n < b.n)
  }

  /** Why a store operation did nothing. */
  datatype Error =
    | NoEdgesToRemove
    | NothingToRestore
    | EdgeDropped  // the popped edge found no room in the edge array

  datatype Result<T> = Ok(value: T) | Err(error: Error)
}
