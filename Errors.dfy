/**
 * The failures the codec and the channel can raise, as one error value
 * instead of PHP exceptions, plus the Result/Outcome/Option wrappers that
 * carry them.
 */
module Errors {

  datatype Error =
    /** NotEnoughBytesAllocated: a read or write of `length` bytes past the end of a buffer. */
    | NotEnoughBytesAllocated(length: int)
    /** ValueOutOfAllowedRange: a typed buffer write of a value outside [lower, upper]. */
    | ValueOutOfAllowedRange(value: int, lower: int, upper: int)
    /** SchemaValidationFailure::nullValue */
    | NullValue(expectedType: string)
    /** SchemaValidationFailure::incorrectType */
    | IncorrectType(expectedType: string)
    /** SchemaValidationFailure::incorrectClass */
    | IncorrectClass(expectedClass: string)
    /** SchemaValidationFailure::incorrectRange */
    | IncorrectRange(value: int, lower: int, upper: int)
    /** SchemaValidationFailure::incorrectLength */
    | IncorrectLength(length: int, maxLength: int)
    /** SchemaValidationFailure::missingField */
    | MissingField(name: string)
    /** SchemaValidationFailure::invalidValueForField, wrapping the field's own failure. */
    | InvalidValueForField(name: string, inner: Error)
    /** A PHP TypeError (or failed `assert`): a write or size computation given a value of the wrong kind. */
    | TypeMismatch
    /** A negative length prefix where a non-nullable string or byte sequence was expected. */
    | NegativeLength(length: int)
    /** A version index outside a schema table (PHP: undefined array key, then a TypeError). */
    | UnknownSchemaVersion(version: int)
    /** The correlation id read back differs from the one sent. */
    | CorrelationMismatch(expected: int, actual: int)
    /** A data event arrived while no request was in flight (dequeue on an empty queue). */
    | EmptyInFlightQueue
    /** A frame was about to be written while the channel had no connection. */
    | ConnectionMissing
    /** A response class whose schema table and fromArray are not part of this model (ApiVersionsResponse). */
    | ResponseClassNotModelled

  datatype Result<T> = Success(value: T) | Failure(error: Error) {
    predicate IsFailure() { Failure? }

    function PropagateFailure<U>(): Result<U>
      requires Failure?
    {
      Failure(error)
    }

    function Extract(): T
      requires Success?
    {
      value
    }

    /** Forgets the success value. */
    function ToOutcome(): Outcome {
      if Success? then Pass else Fail(error)
    }
  }

  datatype Outcome = Pass | Fail(error: Error) {
    /** Runs `next` only when this outcome passed: the first failure wins. */
    function Then(next: Outcome): Outcome {
      if Pass? then next else this
    }
  }

  datatype Option<T> = None | Some(value: T) {
    function GetOr(default: T): T {
      if Some? then value else default
    }
  }
}
