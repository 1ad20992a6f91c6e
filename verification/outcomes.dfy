/**
  Failure-compatible result type shared by every module of the model.
  The Python and JavaScript sources signal failure by raising; each raise
  becomes a `Fail` carrying the kind of exception that would escape.
 */
module Outcomes {

  /** The kind of exception the source raises (or would raise) on a path. */
  datatype Error =
    | KeyError            // dict lookup of a missing key
    | IndexError          // `.iloc[...]` or list index out of range
    | ValueError          // explicit `raise ValueError`, bad unpacking, `idxmin` of nothing
    | TypeError           // an operation applied to a value of the wrong JSON shape
    | AttributeError      // a method called on a value that lacks it (`None.split`)
    | StructError         // `struct.pack`/`struct.unpack` out of range or short buffer
    | UnboundLocalError   // a local read before any branch assigned it
    | AssertionError      // a failed `assert`
    | TimedOut            // the peer stopped sending before the reply was complete
    | DeviceError(reason: string)  // the `Exception(...)` the device layer raises

  datatype Option<+T> = None | Some(value: T)

  datatype Result<+T> = Ok(value: T) | Fail(error: Error) {

    predicate IsFailure() {
      Fail?
    }

    function PropagateFailure<U>(): Result<U>
      requires Fail?
    {
      Fail(error)
    }

    function Extract(): T
      requires Ok?
    {
      value
    }
  }
}
