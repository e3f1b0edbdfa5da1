/** Failure-compatible wrappers shared by every module of the model.

    `Option` stands for Python's "value or None"; `Result` for "value, or the
    exception the script would raise at that point". */
module Wrappers {

  datatype Option<+T> = None | Some(value: T) {

    predicate IsFailure() {
      None?
    }

    function PropagateFailure<U>(): Option<U>
      requires None?
    {
      None
    }

    function Extract(): T
      requires Some?
    {
      value
    }

    function GetOr(default: T): T {
      match this
      case Some(v) => v
      case None => default
    }
  }

  /** The kinds of exception the modelled scripts can raise, as far as the
      model distinguishes them. */
  datatype Fault =
    | RequestFailed      // requests.exceptions.RequestException (transport, 4xx/5xx, bad JSON body)
    | AttributeError     // `.get`, `.endswith` or `.year` on a value of the wrong kind
    | TypeError          // iterating a non-iterable, comparing an int with a non-number, hashing a list
    | ValueError         // a date string that no parser accepts
    | RecursionLimit     // RecursionError: a recursion that Python would never finish
    | OutOfFuel          // a loop ran longer than the bound the model follows it for

  datatype Result<+R> = Success(value: R) | Failure(error: Fault) {

    predicate IsFailure() {
      Failure?
    }

    function PropagateFailure<U>(): Result<U>
      requires Failure?
    {
      Failure(error)
    }

    function Extract(): R
      requires Success?
    {
      value
    }
  }

  /** One run of work followed by another: the first run's exception, else
      the second's, else both outputs joined. */
  function Then<B>(first: Result<seq<B>>, second: Result<seq<B>>): Result<seq<B>> {
    if first.Failure? then first
    else if second.Failure? then second
    else Success(first.value + second.value)
  }
}
