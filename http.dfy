/** What a `fetch` call can come back with, as far as the chat screens look at it.
    The network itself is not modelled: the outcome is an input to the operation
    that consumes it. */
module Http {

  /** A response whose `ok` flag is set, with its decoded JSON body; a response whose
      `ok` flag is unset, with its status text; or an error thrown by `fetch`. */
  datatype Response<T> = Ok(body: T) | NotOk(statusText: string) | Thrown(error: string)
}
