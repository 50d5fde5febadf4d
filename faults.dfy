/** Failure outcomes that replace the exceptions thrown by the tree-building code. */
module Faults {

  /** One constructor per distinct exception the core can raise. */
  datatype Error =
    | NodeNotFound           // an id that is not registered in the collection
    | DuplicateNode          // adding an id that is already registered
    | CorrelationNotFound    // editing a correlation that does not exist
    | MultipleParents        // more than one Parent correlation on a node
    | NoParent               // a parent was expected but there is none
    | NoSiblings             // siblings were expected but there are none
    | SiblingVerticesDiffer  // siblings of a node still disagree on their vertex
    | IdCollision            // the synthesised aggregate-parent id is already taken
    | NotSiblingRelation     // a correlation expected to be Sibling is not
    | IndexOutOfBounds       // an index that was never assigned

  /** A value, or the error that prevented computing it. */
  datatype Result<+T> = Ok(value: T) | Err(error: Error) {
    predicate IsFailure() { Err? }

    function PropagateFailure<U>(): Result<U>
      requires Err?
    {
      Err(error)
    }

    function Extract(): T
      requires Ok?
    {
      value
    }
  }

  /** Success or failure of an operation that returns nothing. */
  datatype Outcome = Pass | Fail(error: Error) {
    predicate IsFailure() { Fail? }

    function PropagateFailure(): Outcome
      requires Fail?
    {
      this
    }
  }

  datatype Option<+T> = None | Some(value: T)
}
