/** The error-or-value type shared by the component modules: a Python call
    that raises becomes `Failure`, one that returns becomes `Success`. */
module Outcomes {

  datatype Result<+T, +E> = Success(value: T) | Failure(error: E)
}
