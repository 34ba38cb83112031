/** Outcomes of the operations of jCAS that can throw. */
module Results {

  /** The Java runtime exceptions the core can raise. */
  datatype Failure =
    | EmptyStack        // java.util.EmptyStackException from Stack.pop / Stack.peek
    | NullPointer       // a method called on a null reference
    | IndexOutOfBounds  // List.get or String.substring / charAt outside the bounds

  /** A value, or the exception that replaced it. */
  datatype Result<T> = Ok(value: T) | Err(failure: Failure)

  /** The outcome of a void method: it returned, or it threw. */
  datatype Outcome = Pass | Fail(failure: Failure)

  datatype Option<T> = None | Some(value: T)
}
