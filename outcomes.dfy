/** Null references and the exceptions the orchestrator can raise, as values. */
module Outcomes {

  /** A nullable reference or a failed lookup. */
  datatype Option<+T> = None | Some(value: T)

  /** The exceptions the C# code can raise on the paths that are modelled. */
  datatype Fault =
    | ArgumentOutOfRange  // ArgumentOutOfRangeException: List<T> indexer with an index outside the list
    | NullReference       // a member access through a null reference
    | NotImplemented      // a stub that throws NotImplementedException

  /** The result of an operation that either returns normally or throws. */
  datatype Outcome<+T> = Ok(value: T) | Thrown(fault: Fault)
}
