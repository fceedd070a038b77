/** Validation errors, the exceptions the core raises, and the two validation handlers. */
module Validation {
  import opened Wrappers

  /** One violated rule, identified by its message. */
  datatype Error = Error(message: string)

  /** What a call can raise: a DomainException carrying errors, or any other exception
      (an IllegalStateException from the store, say), known only by its message. */
  datatype Exception =
    | DomainException(message: string, errors: seq<Error>)
    | Unexpected(message: string)

  /** DomainException.with(error): the exception's message is the error's message. */
  function DomainWith(e: Error): (ex: Exception)
    ensures ex.DomainException? && ex.errors == [e] && ex.message == e.message
  {
    DomainException(e.message, [e])
  }

  /** A call that either returns a value or raises an exception. */
  datatype Raises<+T> = Normal(value: T) | Raised(exception: Exception)

  /** The two handler strategies: Notification accumulates, ThrowsValidationHandler fails fast. */
  datatype Strategy = Accumulate | FailFast

  /** A validation handler: errors are appended to it while an entity is validated. */
  class ValidationHandler {
    const strategy: Strategy
    var errors: seq<Error>

    /** Notification.create(): an accumulating handler with no errors yet. */
    constructor Notification()
      ensures strategy == Accumulate && errors == []
    {
      strategy := Accumulate;
      errors := [];
    }

    /** new ThrowsValidationHandler(): a fail-fast handler. */
    constructor Throws()
      ensures strategy == FailFast && errors == []
    {
      strategy := FailFast;
      errors := [];
    }

    /** append(error): an accumulating handler records the error and carries on;
        a fail-fast handler raises a DomainException carrying exactly that error
        and records nothing. */
    method Append(e: Error) returns (raised: Option<Exception>)
      modifies this
      ensures strategy == Accumulate ==> raised == None && errors == old(errors) + [e]
      ensures strategy == FailFast ==> raised == Some(DomainWith(e)) && errors == old(errors)
    {
      if strategy == Accumulate {
        errors := errors + [e];
        raised := None;
      } else {
        raised := Some(DomainWith(e));
      }
    }

    /** hasError(): at least one error has been recorded. */
    predicate HasError()
      reads this
      ensures HasError() <==> exists e :: e in errors
    {
      if errors == [] then false else assert errors[0] in errors; true
    }

    /** firstError(): the earliest recorded error, if any. */
    function FirstError(): (first: Option<Error>)
      reads this
      ensures first.Some? <==> HasError()
      ensures first.Some? ==> first.value == errors[0]
    {
      if errors == [] then None else Some(errors[0])
    }
  }
}
