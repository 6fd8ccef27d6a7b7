/** Errors the pipeline raises and the Result type that carries them.

    Each constructor of `Error` stands for one Python exception raised on
    a path of the modelled code; the payload names what the exception's
    message names.
 */
module Results {

  datatype Error =
    /** `_find_var`: none of the candidate spellings is in the dataset (KeyError). */
    | MissingVariable(candidates: seq<string>)
    /** `ds[name]` or `cfg[name]` on an absent key (KeyError). */
    | MissingKey(key: string)
    /** `[...][0]` on an empty list comprehension, or `p[0]`/`p[1]` on a short point (IndexError). */
    | IndexOutOfRange
    /** `_to_hourly`: the named time coordinate is absent (ValueError). */
    | MissingTimeCoordinate(name: string)
    /** `np.min`/`np.max` of an empty coordinate (ValueError). */
    | EmptyReduction
    /** xarray `rename` of a name that is neither a variable nor a dimension (ValueError). */
    | RenameUnknown
    /** xarray `rename` that would give two variables the same name (ValueError). */
    | RenameConflict
    /** xarray `interp` along a dimension the dataset does not have (ValueError). */
    | MissingDimension(name: string)
    /** Python `range` with a zero step (ValueError). */
    | ZeroStep
    /** The HTTP client raised instead of returning a response. */
    | TransportFailure(hour: int)
    /** `raise SystemExit(message)`. */
    | Exit(message: string)

  /** The outcome of an operation that may raise one of the errors above. */
  datatype Result<+T> = Ok(value: T) | Err(error: Error) {

    predicate IsFailure() {
      Err?
    }

    function PropagateFailure<U>(): Result<U>
      requires Err?
    {
      Err(error)
    }

    function Extract(): T
      requires Ok?
    {
      value
    }
  }

  /** Python's `x or default` for an optional configuration value. */
  datatype Option<+T> = None | Some(value: T) {

    function GetOr(default: T): T {
      match this
      case Some(v) => v
      case None => default
    }
  }
}
