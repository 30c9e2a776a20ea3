/** Optional values, the exception kinds of the character model, and the
    two shapes an operation that can raise returns: a value or an error
    (`Result`), or just success or an error (`Outcome`). */
module Outcomes {

  datatype Option<+T> = None | Some(value: T) {
    /** The Python idiom `d.get(key, default)` once the lookup is done. */
    function GetOr(default: T): T {
      match this
      case Some(v) => v
      case None => default
    }
  }

  /** The exceptions the character's resource methods raise. */
  datatype Error =
    | InvalidArgument
    | CounterOutOfBounds
    | ConsumableNotFound
    | InvalidSpellLevel
    | OutdatedSheet
    | NoReset
      // a bare `assert` that fails (get_remaining_slots_str's level check)
    | AssertionFailure
      // a name the module uses but never binds (NoReset is not imported)
    | NameError

  datatype Result<+T> = Ok(value: T) | Err(error: Error) {
    /** Whether the call returned, or the exception it raised. */
    function ToOutcome(): (o: Outcome)
      ensures o.Pass? <==> Ok?
      ensures o.Fail? ==> o.error == error
    {
      match this
      case Ok(_) => Pass
      case Err(e) => Fail(e)
    }

    /** The value, or `prior` when the call raised: the state a caller keeps
        after an operation that either completes or leaves it untouched. */
    function GetOr(prior: T): T {
      match this
      case Ok(v) => v
      case Err(_) => prior
    }
  }

  datatype Outcome = Pass | Fail(error: Error)
}
