/** What a controller action hands back to the presentation layer. */
module Http {
  import opened Php

  datatype Status = Success | Error

  /** The `['status' => ..., 'message' => ...]` arrays the controllers return. */
  datatype Response = Response(status: Status, message: Option<string>)

  /** The query parameter of a redirect to `/sessions`: `?success=<code>` or `?error=<code>`. */
  datatype Query = SuccessCode(code: string) | ErrorCode(code: string)

  /** How a static action ends: a `header('Location: ...')` redirect, or a fatal PHP error
      (an uncaught `TypeError`), which ends the request and discards its open transaction. */
  datatype Redirect = ToLogin | ToSessions(query: Query) | Fatal
}
