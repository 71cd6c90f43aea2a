/**
  The product handlers of crud.js, the earlier revision: no token check, a
  truthiness check on all four product fields, plain-text replies, and the
  HEAD and OPTIONS routes. Its GET /products is `Retrieve.ListProducts`.
*/
module Crud {
  import opened Wrappers
  import opened Js
  import opened Http
  import Sql

  const AllowedMethods: string := "GET, POST, PUT, DELETE, PATCH, HEAD, OPTIONS"
  const FieldsRequired: string := "All fields are required: product_name, description, price, stock"

  /** The earlier revision's check: all four fields truthy, so a price or
      stock of 0 is refused. */
  predicate FieldsTruthy(b: Body): (ok: bool)
    ensures ok ==> forall f :: f in ["product_name", "description", "price", "stock"] ==> f in Keys(b)
    ensures ok ==> Get(b, "price") != Num(0.0) && Get(b, "stock") != Num(0.0)
  {
    && Truthy(Get(b, "product_name"))
    && Truthy(Get(b, "description"))
    && Truthy(Get(b, "price"))
    && Truthy(Get(b, "stock"))
  }

  /** POST /products. */
  function AddProduct(body: Option<Body>, result: Result<OkPacket, StoreError>): (o: Outcome)
    ensures body.None? ==> o == Outcome([], Thrown)
    ensures body.Some? && !FieldsTruthy(body.value) ==> o == Outcome([], SendText(400, FieldsRequired))
    ensures body.Some? && FieldsTruthy(body.value) ==>
              o.statements == [Statement(Sql.InsertProduct, Sql.ProductParams(body.value))]
    ensures StatusOf(o) == 201 <==> body.Some? && FieldsTruthy(body.value) && result.Ok?
    ensures StatusOf(o) == 201 ==>
              o.reply == SendJson(201, MessageAndProductId("Product added successfully", result.value.insertId))
    ensures o.statements != [] && result.Err? ==> o.reply == SendText(500, "Failed to add product")
  {
    match body
    case None => Outcome([], Thrown)
    case Some(b) =>
      if !FieldsTruthy(b) then Outcome([], SendText(400, FieldsRequired))
      else
        var insert := Statement(Sql.InsertProduct, Sql.ProductParams(b));
        match result
        case Err(_) => Outcome([insert], SendText(500, "Failed to add product"))
        case Ok(packet) =>
          Outcome([insert], SendJson(201, MessageAndProductId("Product added successfully", packet.insertId)))
  }

  /** PUT /products/:id. A missing body is refused before the fields are read. */
  function ReplaceProduct(id: string, body: Option<Body>, result: Result<OkPacket, StoreError>): (o: Outcome)
    ensures body.None? ==> o == Outcome([], SendText(400, "Request body is missing."))
    ensures body.Some? && !FieldsTruthy(body.value) ==> o == Outcome([], SendText(400, FieldsRequired))
    ensures body.Some? && FieldsTruthy(body.value) ==>
              && o.statements == [Statement(Sql.UpdateProduct, Sql.ProductParams(body.value) + [Str(id)])]
              && WriteConvention(result, o.reply)
    ensures o.statements != [] && result.Err? ==> o.reply == SendText(500, "Failed to update product")
    ensures StatusOf(o) == 200 ==> o.reply == SendText(200, "Product updated successfully")
  {
    match body
    case None => Outcome([], SendText(400, "Request body is missing."))
    case Some(b) =>
      if !FieldsTruthy(b) then Outcome([], SendText(400, FieldsRequired))
      else
        Outcome([Statement(Sql.UpdateProduct, Sql.ProductParams(b) + [Str(id)])],
                WriteReply(result, SendText(500, "Failed to update product"),
                           SendText(200, "Product updated successfully")))
  }

  /** The PATCH statement of this revision: the body's keys and
      `keys.map(key => fields[key])`, with the id matched against `product_id`. */
  function PatchStatement(id: string, b: Body): (st: Statement)
    ensures |st.params| == |b| + 1
    ensures forall i :: 0 <= i < |b| ==> st.params[i] == b[i].value
    ensures st.params[|b|] == Str(id)
    ensures Sql.PlaceholderCount(st.sql) == |st.params| <==> forall k :: 0 <= k < |b| ==> '?' !in b[k].key
    ensures (forall k :: 0 <= k < |b| ==> '?' !in b[k].key) ==>
              forall i :: 0 <= i < |b| ==> Sql.AssignedAt(st.sql, b[i].key, i, |b| - i)
  {
    assert '?' !in "product_id";
    var keys := Keys(b);
    Sql.PartialUpdatePlaceholders(keys, ValuesOf(b, keys), "product_id", Str(id));
    PatchPairing(id, b);
    Sql.PartialUpdate(keys, ValuesOf(b, keys), "product_id", Str(id))
  }

  /** With no `?` in any key, the i-th `?` of the PATCH text is the one in the
      assignment of entry i's key. */
  lemma PatchPairing(id: string, b: Body)
    ensures var keys := Keys(b);
            (forall k :: 0 <= k < |b| ==> '?' !in b[k].key) ==>
              forall i :: 0 <= i < |b| ==>
                Sql.AssignedAt(Sql.PartialUpdate(keys, ValuesOf(b, keys), "product_id", Str(id)).sql, b[i].key, i, |b| - i)
  {
    var keys := Keys(b);
    assert '?' !in "product_id";
    assert forall i :: 0 <= i < |b| ==> keys[i] == b[i].key;
    Sql.PartialUpdatePairing(keys, ValuesOf(b, keys), "product_id", Str(id));
  }

  /** PATCH /products/:id. */
  function PatchProduct(id: string, body: Option<Body>, result: Result<OkPacket, StoreError>): (o: Outcome)
    ensures body.None? ==> o == Outcome([], Thrown)
    ensures body == Some([]) ==>
              o == Outcome([], SendText(400, "At least one field must be provided for update"))
    ensures body.Some? && body.value != [] ==>
              && o.statements == [PatchStatement(id, body.value)]
              && WriteConvention(result, o.reply)
    ensures o.statements != [] && result.Err? ==> o.reply == SendText(500, "Failed to update product")
    ensures StatusOf(o) == 200 ==> o.reply == SendText(200, "Product updated successfully (partial)")
  {
    match body
    case None => Outcome([], Thrown)
    case Some(b) =>
      var keys := Keys(b);
      if |keys| == 0 then Outcome([], SendText(400, "At least one field must be provided for update"))
      else
        Outcome([PatchStatement(id, b)],
                WriteReply(result, SendText(500, "Failed to update product"),
                           SendText(200, "Product updated successfully (partial)")))
  }

  /** HEAD /products/:id: a status and nothing else. */
  function HeadProduct(id: string, result: Result<seq<Row>, StoreError>): (o: Outcome)
    ensures o.statements == [Statement(Sql.SelectProductById, [Str(id)])]
    ensures o.reply.Send? && o.reply.response.payload == StatusOnly && o.reply.response.allow == None
    ensures StatusOf(o) == 500 <==> result.Err?
    ensures StatusOf(o) == 404 <==> result == Ok([])
    ensures StatusOf(o) == 200 <==> result.Ok? && result.value != []
  {
    var probe := Statement(Sql.SelectProductById, [Str(id)]);
    match result
    case Err(_) => Outcome([probe], SendStatus(500))
    case Ok(rows) =>
      if |rows| == 0 then Outcome([probe], SendStatus(404))
      else Outcome([probe], SendStatus(200))
  }

  /** OPTIONS /products/:id: the fixed list of verbs, without touching the store. */
  function Options(): (o: Outcome)
    ensures o.statements == []
    ensures o.reply == Send(Response(200, Some(AllowedMethods), StatusOnly))
  {
    Outcome([], Send(Response(200, Some(AllowedMethods), StatusOnly)))
  }

  /** DELETE /products/:id. */
  function DeleteProduct(id: string, result: Result<OkPacket, StoreError>): (o: Outcome)
    ensures o.statements == [Statement(Sql.DeleteProductById, [Str(id)])]
    ensures WriteConvention(result, o.reply)
    ensures result.Err? ==> o.reply == SendText(500, "Failed to delete product")
    ensures StatusOf(o) == 200 ==> o.reply == SendText(200, "Product deleted successfully")
  {
    Outcome([Statement(Sql.DeleteProductById, [Str(id)])],
            WriteReply(result, SendText(500, "Failed to delete product"),
                       SendText(200, "Product deleted successfully")))
  }
}
