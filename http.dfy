/**
 * The answers an Express handler gives: `res.status(n).json(body)`,
 * `res.json(body)` (status 200) and `res.redirect(n, url)`.
 */
module Http {

  /** The JSON bodies the core's handlers send. */
  datatype Body =
    | ErrorBody(error: string)
    | MessageBody(message: string)
    | BalanceBody(balance: string)
    | UpdatedBody(message: string, newBalance: string)
    | TokenBody(message: string, token: string)

  datatype Response =
    | Json(status: nat, body: Body)
    | Redirect(status: nat, location: string)

  function Error(status: nat, message: string): Response
  {
    Json(status, ErrorBody(message))
  }

  /**
   * The central error handler of backend/app.js for an error passed to
   * `next`: its `status`, or 500 when it has none (0 stands for none), and
   * its message, or "Internal Server Error" when that is empty.
   */
  function ServerError(status: nat, message: string): Response
  {
    Error(if status == 0 then 500 else status, if message == [] then "Internal Server Error" else message)
  }
}
