/** Failure-carrying datatypes shared by the whole model.

    The modelled program is Python: most of its operations mutate objects in
    place and may raise part-way through.  `Res` records both outcomes; when an
    exception escapes, `Raised` carries the state reached at that moment, since
    callers such as the topic loader catch the exception and keep using the
    partially mutated object.
 */
module Wrappers {

  datatype Option<+T> = None | Some(value: T) {
    function GetOr(default: T): T {
      match this
      case Some(v) => v
      case None => default
    }
  }

  /** The later value wins over the earlier one when there is one. */
  function Override<T>(later: Option<T>, earlier: Option<T>): Option<T> {
    if later.Some? then later else earlier
  }

  /** The Python exceptions (and process exits) the modelled code can raise. */
  datatype PyError =
    | AttributeError   // attribute access on None
    | KeyError         // missing dictionary key
    | TypeError        // None where a string is needed
    | IndexError       // sequence index out of range
    | AssertionError   // failed `assert`
    | ValueError       // list.remove of an absent item
    | FileNotFound     // parsing a path that does not exist
    | SystemExit       // sys.exit()
    | StopIteration    // next() on an exhausted file

  /** Result of a mutating operation: the new state, or the state at the
      moment an exception escaped together with that exception. */
  datatype Res<+T> = Ok(value: T) | Raised(partial: T, error: PyError) {
    /** The object's state after the call, whether or not it raised. */
    function State(): T {
      match this
      case Ok(v) => v
      case Raised(p, _) => p
    }
  }

  /** Result of a query that changes nothing but may raise. */
  datatype Result<+T> = Success(value: T) | Failure(error: PyError)
}
