/** Failure-carrying values shared by every module of the model. */
module Outcomes {

  datatype Option<+T> = None | Some(value: T)

  /** The ways an operation of the engine can end abruptly.
      - NotFound: the engine's own "Cannot perform operations on a Metamorph that is
        not in the DOM." error, raised when a marker does not resolve;
      - TypeError: a host null dereference (a property read on `null`);
      - HierarchyRequest: the host refusing to insert a node into its own subtree. */
  datatype Error = NotFound | TypeError | HierarchyRequest

  /** Whether an operation returned normally or threw. */
  datatype Outcome = Done | Thrown(error: Error)

  datatype Result<+T> = Ok(value: T) | Fail(error: Error)
}
