/** Failure-compatible result types and the error kinds of the control flow
    graph package. Every panic of the package is modelled as an `Err` carrying
    one of these kinds, so that misuse of the construction API is observable. */
module Wrappers {

  datatype Option<+T> = None | Some(value: T)

  /** The distinct failure kinds of the package. */
  datatype Error =
    | InvalidNode       // empty node name
    | IdCollision       // a node with the same internal id is already present
    | DuplicateNode     // a different node already owns the name
    | DuplicateEntry    // an entry node is already set
    | InvalidBranch     // branch-target query on a node without exactly two successors
    | InvalidLabel      // entry node carrying a label other than "entry"
    | MissingNode       // no node of the given name
    | NoEntryNode       // neither a flagged entry node nor a node named "0"
    | MalformedDot      // the DOT text could not be parsed
    | UnknownLoopType   // unrecognised loop type text

  datatype Result<+T> = Ok(value: T) | Err(error: Error) {
    predicate IsFailure() {
      Err?
    }

    function PropagateFailure<U>(): Result<U>
      requires Err?
    {
      Err(error)
    }

    function Extract(): T
      requires Ok?
    {
      value
    }
  }
}
