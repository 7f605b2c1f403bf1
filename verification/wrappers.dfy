/** Shared result types for the gitlib model.

    The library reports trouble in three ways: a probe that returns None,
    a Python exception (TypeError, AttributeError, IndexError, ValueError,
    NotImplementedError) and `msg.error(..., exit=1)` / `sys.exit(1)`.
    The last two end the operation; here they become a `Fault`.
 */
module Wrappers {

  datatype Option<+T> = None | Some(value: T)

  /** Why an operation of the library stopped. */
  datatype Fault =
    | TypeErrorOnNone        // a None handed to os.path (e.g. os.path.isabs(None))
    | AttributeErrorOnNone   // a method called on a None probe result
    | IndexOutOfRange        // `[0]` on an empty list
    | NotAnInteger           // int() of a string that is not a Python integer literal
    | NotImplemented         // `raise NotImplementedError()`
    | FatalExit              // msg.error(exit=1) or sys.exit(1)

  datatype Result<+T> = Ok(value: T) | Err(fault: Fault)

  /** The state an operation leaves behind: either it returned, or it raised
      part-way through, in which case the fields it had already assigned stay
      assigned (Python objects are not rolled back). */
  datatype Outcome<+S> = Returned(state: S) | Raised(state: S, fault: Fault)

  /** A Python value as the tests `x is True`, `x is False` and `x is None`
      see it: `True`, `False`, `None`, or anything else. */
  datatype PyFlag = PTrue | PFalse | PNone | POther

  /** Python truthiness of an optional string: None and "" are false. */
  predicate Truthy(o: Option<string>)
  {
    o.Some? && o.value != ""
  }
}
