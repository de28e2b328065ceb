/** Failure-compatible wrappers used throughout the model: `Option` for values
    that may be absent and `Result` for computations that raise in
    `dihed_parser.py`. Both work with Dafny's `:-` operator. */
module Wrappers {

  datatype Option<+T> = None | Some(value: T) {

    predicate IsFailure() {
      None?
    }

    function PropagateFailure<U>(): Option<U>
      requires None?
    {
      None
    }

    function Extract(): T
      requires Some?
    {
      value
    }

    /** Converts to a `Result`, using `error` for the absent case. */
    function ToResult<E>(error: E): Result<T, E> {
      match this
      case Some(v) => Success(v)
      case None => Failure(error)
    }
  }

  datatype Result<+R, +E> = Success(value: R) | Failure(error: E) {

    predicate IsFailure() {
      Failure?
    }

    function PropagateFailure<U>(): Result<U, E>
      requires Failure?
    {
      Failure(error)
    }

    function Extract(): R
      requires Success?
    {
      value
    }
  }
}

/** The exceptions the parser can raise, one constructor per distinct cause.
    The program never catches any of them: each one ends the run. */
module PyErrors {

  datatype Error =
    /** `IndexError`: a list index (a token, a split part, `xact[0]`) is out of range. */
    | IndexOutOfRange
    /** `ValueError` from `str.split(sep)` with `sep == ""`. */
    | EmptySeparator
    /** `ValueError` from converting a string to a float. */
    | NotAFloat(text: string)
    /** `ValueError` from converting a string to an integer. */
    | NotAnInt(text: string)
    /** `OverflowError`: an integer does not fit the 32-bit array element type. */
    | Int32Overflow(value: int)
    /** `ValueError` from `min()` of an empty sequence. */
    | EmptyMinimum
    /** `ValueError` from element-wise arithmetic on arrays that cannot be broadcast. */
    | ShapeMismatch(left: nat, right: nat)
    /** `ValueError` from matplotlib's `scatter`: `x` and `y` differ in size. */
    | ScatterSizes(x: nat, y: nat)
}
