/**
  What a handler hands to the store and to Express: parameterised SQL
  statements, and the one reply it produces for the request.
*/
module Http {
  import opened Wrappers
  import opened Js

  /** The error object a mysql2 callback receives; only its message is ever read. */
  datatype StoreError = StoreError(message: string)

  /** The result header of an INSERT, UPDATE or DELETE. */
  datatype OkPacket = OkPacket(affectedRows: nat, insertId: nat)

  /** A result row of a SELECT, as an object with its columns in order. */
  type Row = seq<Entry>

  /** `connection.query(sql, params, ...)`: the statement text and its bound values. */
  datatype Statement = Statement(sql: string, params: seq<Value>)

  /** The JSON objects the handlers send with `res.json`. */
  datatype JsonBody =
    | Message(message: string)
    | MessageAndError(message: string, error: string)
    | MessageAndProductId(message: string, productId: nat)
    | Token(token: string)
    | Rows(rows: seq<Row>)

  /** The body of a response: `res.send(text)`, `res.json(...)`, or
      `res.sendStatus(code)`, which carries only the status (a HEAD response
      never carries a body). */
  datatype Payload = Text(text: string) | Json(json: JsonBody) | StatusOnly

  /** `allow` is the `Allow` header, set only by the OPTIONS handler. */
  datatype Response = Response(status: nat, allow: Option<string>, payload: Payload)

  /** What becomes of the request: a response sent by the handler, or an
      exception that escapes the handler to Express's own error handler. */
  datatype Reply = Send(response: Response) | Thrown

  /** The statements a handler issues, in order, and its one reply. */
  datatype Outcome = Outcome(statements: seq<Statement>, reply: Reply)

  function SendText(status: nat, text: string): Reply {
    Send(Response(status, None, Text(text)))
  }

  function SendJson(status: nat, json: JsonBody): Reply {
    Send(Response(status, None, Json(json)))
  }

  function SendStatus(status: nat): Reply {
    Send(Response(status, None, StatusOnly))
  }

  /** The status of a reply that was sent; 0 stands for a thrown exception. */
  function StatusOf(o: Outcome): nat {
    if o.reply.Send? then o.reply.response.status else 0
  }

  const ProductNotFound: Reply := SendText(404, "Product not found")

  /** The mapping every UPDATE and DELETE handler applies to the store's result:
      an error is a 500, no affected row is a 404 "Product not found", and any
      affected row is a 200. The status alone then tells which case occurred. */
  predicate WriteConvention(result: Result<OkPacket, StoreError>, reply: Reply): (w: bool)
    ensures w ==> reply.Send? && reply.response.status in {200, 404, 500}
    ensures w ==> (reply.response.status == 500 <==> result.Err?)
    ensures w ==> (reply.response.status == 404 <==> result.Ok? && result.value.affectedRows == 0)
  {
    && reply.Send?
    && (result.Err? ==> reply.response.status == 500)
    && (result.Ok? && result.value.affectedRows == 0 ==> reply == ProductNotFound)
    && (result.Ok? && result.value.affectedRows != 0 ==> reply.response.status == 200)
  }

  /** The callback of every UPDATE and DELETE: `failed` on a store error,
      404 "Product not found" when no row was affected, `done` otherwise. With
      a 500 and a 200 for the two replies, it follows the write convention. */
  function WriteReply(result: Result<OkPacket, StoreError>, failed: Reply, done: Reply): (r: Reply)
    ensures failed.Send? && failed.response.status == 500 && done.Send? && done.response.status == 200 ==>
              WriteConvention(result, r)
    ensures r == failed || r == ProductNotFound || r == done
  {
    match result
    case Err(_) => failed
    case Ok(packet) => if packet.affectedRows == 0 then ProductNotFound else done
  }
}
