/**
 * What a request handler answers and which upstream requests it issued on the way.
 * Both handlers answer with one of four shapes: 405, 400, 500 with a message, or 200.
 */
module Http {
  import opened Wrappers

  const MethodNotAllowedMessage := "Method not allowed"
  const MissingParametersMessage := "Missing required parameters"

  datatype Response<T> = MethodNotAllowed | MissingParameters | ServerError(message: string) | Success(body: T)
  {
    /** The HTTP status code sent with this response. */
    function Status(): int {
      match this
      case MethodNotAllowed => 405
      case MissingParameters => 400
      case ServerError(_) => 500
      case Success(_) => 200
    }

    /** The `error` field of the JSON body sent with a failure. */
    function ErrorMessage(): string
      requires !Success?
    {
      match this
      case MethodNotAllowed => MethodNotAllowedMessage
      case MissingParameters => MissingParametersMessage
      case ServerError(m) => m
    }
  }

  /** The URLs fetched from the provider, in order, and the response sent back. */
  datatype Exchange<T> = Exchange(fetched: seq<string>, response: Response<T>)

  /**
   * The outcome of one `fetch` plus `.json()`: the call itself threw (a network
   * failure or a body that is not JSON, carrying the thrown error's message),
   * the status was not 2xx, or a body was received.
   */
  datatype Reply<T> = Thrown(message: string) | NotOk | Received(body: T)

  /** The message a failed reply produces once the handler's catch block has seen it. */
  function FailureMessage<T>(reply: Reply<T>, notOkMessage: string): string
    requires !reply.Received?
  {
    if reply.Thrown? then reply.message else notOkMessage
  }

  /** A request parameter counts as missing when it is absent or the empty string (JavaScript `!x`). */
  predicate Missing(p: Option<string>) {
    p.None? || p.value == ""
  }
}
