/** The failure-carrying result of a validation step. */
module Wrappers {

  /** A validation step passes, or fails with an error (the model of a raised exception). */
  datatype Outcome<E> = Pass | Fail(error: E)
}

/** The two errors a validation call can end with. */
module Errors {

  datatype ValidationError =
      /** The parser's syntax error, propagated unchanged. */
    | SyntaxError(message: string)
      /** A circular fragment reference: the names on the DFS stack, then the repeated name. */
    | CircularFragment(path: seq<string>)
}
