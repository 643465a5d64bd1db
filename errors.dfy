/** The errors the conversion layer throws, and the failure-compatible wrappers that carry them. */
module Errors {

  /** `Error` of UserDefaultsBacked.swift, without its diagnostic payloads (`found:`, `for:`). */
  datatype Error =
    | IllegalValue
      // a stored representation that is not a value of the requested type
    | IllegalDirectlyStorableType(typeName: string)
      // a type that declares itself directly storable but is none of the seven store-native kinds
    | Thrown(description: string)
      // an error raised by a collaborator outside the model (a structured encoder, a user conversion)

  datatype Option<+T> = None | Some(value: T)

  /** The outcome of a throwing conversion. */
  datatype Result<+T> = Ok(value: T) | Err(error: Error) {
    predicate IsFailure() { Err? }

    function PropagateFailure<U>(): Result<U>
      requires Err?
    {
      Err(error)
    }

    function Extract(): T
      requires Ok?
    {
      value
    }
  }
}
