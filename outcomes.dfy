/** Failure values of the index utilities: the Python exceptions the source raises,
    plus the one case where the source's seed search never finds an answer. */
module Outcomes {

  datatype Error =
    | AssertionError      // a constructor assertion (start/stop/step) failed
    | IndexError          // position or slice bounds out of range
    | ZeroDivisionError   // reducing a position modulo a size of 0
    | ValueError          // square root of a negative candidate in the primality test
    | OverflowError       // `len()` of a range longer than sys.maxsize
    | StopIteration       // the iteration cursor reached the end
    | SeedSearchDiverges  // no seed is acceptable: the seed search recurses until
                          // Python's recursion limit raises RecursionError

  datatype Option<+T> = None | Some(value: T)

  datatype Result<+T> = Ok(value: T) | Err(error: Error)
}
