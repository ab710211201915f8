/** Option, Result and Outcome, for values that may be missing and
    operations that may raise: an unset environment variable, a rejected
    configuration, a non-200 answer from the streams endpoint. */
module Results {

  /** A value that may be absent, such as `os.getenv` without a default. */
  datatype Option<T> = None | Some(value: T) {

    /** The wrapped value, or `default` when there is none. */
    function GetOr(default: T): T {
      if Some? then value else default
    }
  }

  /** Either the computed value or the error the script would raise. */
  datatype Result<R, E> = Success(value: R) | Failure(error: E)

  /** A check that either passes or reports the first failure found. */
  datatype Outcome<E> = Pass | Fail(error: E)
}
