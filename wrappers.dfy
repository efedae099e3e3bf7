/** Failure-carrying results shared by the contour-tree modules. */
module Wrappers {

  datatype Option<+T> = None | Some(value: T)

  /** The errors the pipeline raises. Each one aborts the whole construction. */
  datatype Error =
    | MissingEndpoint          // connect_nodes on a vertex that has no node
    | MultipleParents          // reduce_vert on a node with more than one parent
    | MultipleChildren         // a pruned leaf whose relevant tree gives it more than one child
    | AbsentVertex             // a node looked up after it was removed (a TypeError in the script)

  /** The outcome of an operation that returns nothing but may fail. */
  datatype Outcome = Pass | Fail(error: Error)
}
