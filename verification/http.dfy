/** JSON responses as the handlers produce them: an HTTP status and one of
    the body shapes the API uses. */
module Http {
  import opened Wrappers

  datatype Body =
    | ErrorBody(error: string)
      /** `{order_id, status}`; a missing status is `undefined`, which
          `JSON.stringify` leaves out of the object. */
    | OrderBody(orderId: string, status: Option<string>)
    | StockBody(productName: string, estimatedStock: int)
    | ReplyBody(reply: string)

  datatype Response = Response(status: int, body: Body)

  /** `res.json(body)` without an explicit status sends 200. */
  function Ok(body: Body): Response {
    Response(200, body)
  }
}
