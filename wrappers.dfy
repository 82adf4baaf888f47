/** Failure-compatible wrappers and the single error kind of the serializer. */
module Wrappers {

  datatype Option<+T> = None | Some(value: T)

  /** Every failure the walkers raise. Each constructor corresponds to one
      `SerializationException` (or runtime exception) of the original code. */
  datatype Error =
    | AlreadySet                       // "Value already set"
    | InternalError                    // "Internal error"
    | DuplicateBagKey(name: string)    // bag entry collides with a key of the output object
    | NotSerializable(typeName: string)
    | TypeNotFound(typeName: string)   // "Could not find the type: ..."
    | MalformedTypeTag                 // a `@@type@@` that is not a string
    | CannotDeduceType                 // "Cannot deduce object type"
    | ValueTypeReference(path: string) // "Invalid reference to a value type"
    | InvalidReference(path: string)   // "Invalid object reference"
    | NotAnObject                      // an object was expected, something else was found
    | NoSerializationConstructor(typeName: string)
    | InvalidInputType                 // "Invalid input type": an array was expected
    | ConversionFailed                 // Convert.ChangeType or a cast failed
    | InvalidLowerBounds               // `@@lower_bounds@@` is not an array of one value per dimension
    | RaggedArray                      // an index or a nested-array cast failed during an array walk
    | RankMismatch                     // nesting depth of a JSON array differs from the declared rank
    | Malformed                        // the abstract heap disagrees with its own type table
    | DepthExhausted                   // recursion deeper than the walker's depth budget

  datatype Result<+T> = Ok(value: T) | Err(error: Error) {
    predicate IsFailure() { Err? }
    function PropagateFailure<U>(): Result<U>
      requires Err?
    {
      Err(error)
    }
    function Extract(): T
      requires Ok?
    {
      value
    }
  }

  datatype Outcome = Pass | Fail(error: Error) {
    predicate IsFailure() { Fail? }
    function PropagateFailure(): Outcome
      requires Fail?
    {
      this
    }
  }
}
