/** Errors that cross the routing core: the structured `HttpException` and plain `Error`s. */
module HttpErrors {
  import opened Options

  /** An HTTP error: status, message, whether the message may be shown to the client, and
      extra response headers (as ordered name/value pairs). */
  datatype HttpException = HttpException(
    statusCode: int,
    message: string,
    expose: bool,
    headers: seq<(string, string)>)

  /** Anything thrown by a pipe, handler or configuration call: an `HttpException`, or a plain
      `Error` that carries only a message. */
  datatype Thrown = Http(ex: HttpException) | Plain(message: string)

  /** `new HttpException(statusCode, message?, expose?, headers?)`: a missing argument
      (`None`, JavaScript `undefined`) takes its default. */
  function NewHttpException(
    statusCode: int,
    message: Option<string>,
    expose: Option<bool>,
    headers: Option<seq<(string, string)>>): (e: HttpException)
    ensures e.statusCode == statusCode
    ensures message.None? ==> e.message == "Http Error"
    ensures message.Some? ==> e.message == message.value
    ensures expose.None? ==> (e.expose <==> statusCode < 500)
    ensures expose.Some? ==> e.expose == expose.value
    ensures headers.None? ==> e.headers == []
    ensures headers.Some? ==> e.headers == headers.value
  {
    HttpException(
      statusCode,
      message.GetOr("Http Error"),
      expose.GetOr(statusCode < 500),
      headers.GetOr([]))
  }
}
