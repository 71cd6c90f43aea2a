/**
  The handlers of retrieve.js, the later revision of the service: signup and
  login, and the product routes, each of which runs behind `Auth.Guarded`.
  bcrypt and jsonwebtoken are parameters: `hash` and `compare` stand for
  `bcrypt.hash` and `bcrypt.compare`, `sign` for `jwt.sign` with the secret key.
  Store results are parameters too; a handler reads the one for a statement
  only when it issues that statement.
*/
module Retrieve {
  import opened Wrappers
  import opened Js
  import opened Http
  import Sql

  /** The bcrypt work factor used for new passwords. */
  const BcryptCost: nat := 10
  /** The `expiresIn` option of every issued token. */
  const TokenLifetime: string := "1h"

  type Hasher = (Value, nat) -> string
  type Comparer = (Value, Value) -> bool

  /** The claims a login token is signed over. */
  datatype TokenPayload = TokenPayload(userId: Value, email: Value)

  type Signer = (TokenPayload, string) -> string

  const InvalidCredentials: Reply := SendJson(401, Message("Invalid credentials"))

  /** Signup's check: both credentials truthy, which needs both keys present. */
  predicate SignupFieldsPresent(b: Body): (ok: bool)
    ensures ok ==> "email" in Keys(b) && "password" in Keys(b)
    ensures ok ==> Get(b, "email") != Str("") && Get(b, "password") != Str("")
  {
    Truthy(Get(b, "email")) && Truthy(Get(b, "password"))
  }

  /** POST /signup. */
  function Signup(body: Option<Body>, lookup: Result<seq<Row>, StoreError>, hash: Hasher,
                  insert: Result<OkPacket, StoreError>): (o: Outcome)
    ensures o.reply.Send? && StatusOf(o) in {201, 400, 409, 500}
    ensures body.None? ==> o == Outcome([], SendJson(500, Message("Internal server error")))
    ensures StatusOf(o) == 400 <==> body.Some? && !SignupFieldsPresent(body.value)
    ensures StatusOf(o) == 400 ==> o.statements == []
    ensures o.statements != [] ==>
              body.Some? && o.statements[0] == Statement(Sql.SelectUserByEmail, [Get(body.value, "email")])
    ensures StatusOf(o) == 409 <==>
              body.Some? && SignupFieldsPresent(body.value) && lookup.Ok? && |lookup.value| > 0
    ensures |o.statements| == 2 <==> body.Some? && SignupFieldsPresent(body.value) && lookup == Ok([])
    ensures |o.statements| == 2 ==>
              o.statements[1] == Statement(Sql.InsertUser,
                [Get(body.value, "email"), Str(hash(Get(body.value, "password"), BcryptCost))])
    ensures StatusOf(o) == 201 <==> |o.statements| == 2 && insert.Ok?
    ensures StatusOf(o) == 400 ==> o.reply == SendJson(400, Message("Email and password are required"))
    ensures StatusOf(o) == 409 ==> o.reply == SendJson(409, Message("Email already registered"))
    ensures StatusOf(o) == 201 ==> o.reply == SendJson(201, Message("User registered successfully"))
    ensures body.Some? && SignupFieldsPresent(body.value) && lookup.Err? ==>
              o == Outcome([Statement(Sql.SelectUserByEmail, [Get(body.value, "email")])], SendJson(500, Message("Database error")))
    ensures StatusOf(o) == 409 ==> o.statements == [Statement(Sql.SelectUserByEmail, [Get(body.value, "email")])]
    ensures |o.statements| == 2 && insert.Err? ==> o.reply == SendJson(500, Message("User registration failed"))
  {
    match body
    case None => Outcome([], SendJson(500, Message("Internal server error")))
    case Some(b) =>
      var email, password := Get(b, "email"), Get(b, "password");
      if !Truthy(email) || !Truthy(password) then
        Outcome([], SendJson(400, Message("Email and password are required")))
      else
        var check := Statement(Sql.SelectUserByEmail, [email]);
        match lookup
        case Err(_) => Outcome([check], SendJson(500, Message("Database error")))
        case Ok(rows) =>
          if |rows| > 0 then Outcome([check], SendJson(409, Message("Email already registered")))
          else
            var add := Statement(Sql.InsertUser, [email, Str(hash(password, BcryptCost))]);
            match insert
            case Err(_) => Outcome([check, add], SendJson(500, Message("User registration failed")))
            case Ok(_) => Outcome([check, add], SendJson(201, Message("User registered successfully")))
  }

  /** The stored user exists and the password matches its hash. Only the first
      user the lookup returns is ever compared. */
  predicate LoginMatches(body: Body, lookup: Result<seq<Row>, StoreError>, compare: Comparer): (ok: bool)
    ensures ok ==> lookup.Ok? && lookup.value != []
    ensures lookup.Ok? && lookup.value != [] ==>
              (ok <==> compare(Get(body, "password"), Get(lookup.value[0], "password")))
  {
    lookup.Ok? && |lookup.value| > 0 && compare(Get(body, "password"), Get(lookup.value[0], "password"))
  }

  /** POST /login. */
  function Login(body: Option<Body>, lookup: Result<seq<Row>, StoreError>, compare: Comparer, sign: Signer): (o: Outcome)
    ensures body.None? ==> o == Outcome([], Thrown)
    ensures body.Some? ==> o.statements == [Statement(Sql.SelectUserByEmail, [Get(body.value, "email")])]
    ensures body.Some? ==> o.reply == InvalidCredentials || StatusOf(o) == 200
    ensures StatusOf(o) == 200 <==> body.Some? && LoginMatches(body.value, lookup, compare)
    ensures StatusOf(o) == 200 ==>
              var user := lookup.value[0];
              o.reply == SendJson(200, Token(sign(TokenPayload(Get(user, "id"), Get(user, "email")), TokenLifetime)))
  {
    match body
    case None => Outcome([], Thrown)
    case Some(b) =>
      var query := Statement(Sql.SelectUserByEmail, [Get(b, "email")]);
      match lookup
      case Err(_) => Outcome([query], InvalidCredentials)
      case Ok(rows) =>
        if |rows| == 0 then Outcome([query], InvalidCredentials)
        else
          var user := rows[0];
          if !compare(Get(b, "password"), Get(user, "password")) then Outcome([query], InvalidCredentials)
          else
            var token := sign(TokenPayload(Get(user, "id"), Get(user, "email")), TokenLifetime);
            Outcome([query], SendJson(200, Token(token)))
  }

  /** GET /products. crud.js has the same handler without the token check. */
  function ListProducts(result: Result<seq<Row>, StoreError>): (o: Outcome)
    ensures o.statements == [Statement(Sql.SelectProducts, [])]
    ensures StatusOf(o) == 200 <==> result.Ok?
    ensures result.Ok? ==> o.reply == SendJson(200, Rows(result.value))
    ensures result.Err? ==> o.reply == SendText(500, "Failed to retrieve products")
  {
    match result
    case Err(_) => Outcome([Statement(Sql.SelectProducts, [])], SendText(500, "Failed to retrieve products"))
    case Ok(rows) => Outcome([Statement(Sql.SelectProducts, [])], SendJson(200, Rows(rows)))
  }

  /** The later revision's check: name and description truthy, price and stock
      merely not null or undefined, so 0 is an acceptable price or stock. */
  predicate FieldsPresent(b: Body): (ok: bool)
    ensures ok ==> forall f :: f in ["product_name", "description", "price", "stock"] ==> f in Keys(b)
    ensures ok ==> Get(b, "price") != Null && Get(b, "stock") != Null
  {
    && Truthy(Get(b, "product_name"))
    && Truthy(Get(b, "description"))
    && !IsNullish(Get(b, "price"))
    && !IsNullish(Get(b, "stock"))
  }

  /** POST /products. */
  function AddProduct(body: Option<Body>, result: Result<OkPacket, StoreError>): (o: Outcome)
    ensures body.None? ==> o == Outcome([], Thrown)
    ensures body.Some? && !FieldsPresent(body.value) ==> o == Outcome([], SendText(400, "All fields are required"))
    ensures body.Some? && FieldsPresent(body.value) ==>
              o.statements == [Statement(Sql.InsertProduct, Sql.ProductParams(body.value))]
    ensures StatusOf(o) == 201 <==> body.Some? && FieldsPresent(body.value) && result.Ok?
    ensures StatusOf(o) == 201 ==>
              o.reply == SendJson(201, MessageAndProductId("Product added successfully", result.value.insertId))
    ensures o.statements != [] && result.Err? ==> o.reply == SendText(500, "Failed to add product")
  {
    match body
    case None => Outcome([], Thrown)
    case Some(b) =>
      if !FieldsPresent(b) then Outcome([], SendText(400, "All fields are required"))
      else
        var insert := Statement(Sql.InsertProduct, Sql.ProductParams(b));
        match result
        case Err(_) => Outcome([insert], SendText(500, "Failed to add product"))
        case Ok(packet) =>
          Outcome([insert], SendJson(201, MessageAndProductId("Product added successfully", packet.insertId)))
  }

  /** PUT /products/:id. */
  function ReplaceProduct(id: string, body: Option<Body>, result: Result<OkPacket, StoreError>): (o: Outcome)
    ensures body.None? ==> o == Outcome([], Thrown)
    ensures body.Some? && !FieldsPresent(body.value) ==> o == Outcome([], SendText(400, "All fields are required"))
    ensures body.Some? && FieldsPresent(body.value) ==>
              && o.statements == [Statement(Sql.UpdateProduct, Sql.ProductParams(body.value) + [Str(id)])]
              && WriteConvention(result, o.reply)
    ensures o.statements != [] && result.Err? ==>
              o.reply == SendJson(500, MessageAndError("Failed to update product", result.error.message))
    ensures StatusOf(o) == 200 ==> o.reply == SendJson(200, Message("Product updated successfully"))
  {
    match body
    case None => Outcome([], Thrown)
    case Some(b) =>
      if !FieldsPresent(b) then Outcome([], SendText(400, "All fields are required"))
      else
        // `err.message` exists only on the error path.
        var failed := if result.Err? then result.error.message else "";
        Outcome([Statement(Sql.UpdateProduct, Sql.ProductParams(b) + [Str(id)])],
                WriteReply(result, SendJson(500, MessageAndError("Failed to update product", failed)),
                           SendJson(200, Message("Product updated successfully"))))
  }

  /** The PATCH statement of this revision: the body's keys and `Object.values`,
      with the id matched against the `id` column. */
  function PatchStatement(id: string, b: Body): (st: Statement)
    ensures |st.params| == |b| + 1
    ensures forall i :: 0 <= i < |b| ==> st.params[i] == Get(b, Keys(b)[i])
    ensures st.params[|b|] == Str(id)
    ensures Sql.PlaceholderCount(st.sql) == |st.params| <==> forall k :: 0 <= k < |b| ==> '?' !in Keys(b)[k]
    ensures (forall k :: 0 <= k < |b| ==> '?' !in Keys(b)[k]) ==>
              forall i :: 0 <= i < |b| ==> Sql.AssignedAt(st.sql, Keys(b)[i], i, |b| - i)
  {
    assert '?' !in "id";
    Sql.PartialUpdatePlaceholders(Keys(b), Values(b), "id", Str(id));
    Sql.PartialUpdatePairing(Keys(b), Values(b), "id", Str(id));
    Sql.PartialUpdate(Keys(b), Values(b), "id", Str(id))
  }

  /** PATCH /products/:id. */
  function PatchProduct(id: string, body: Option<Body>, result: Result<OkPacket, StoreError>): (o: Outcome)
    ensures body.None? ==> o == Outcome([], Thrown)
    ensures body == Some([]) ==> o == Outcome([], SendText(400, "No fields provided for update"))
    ensures body.Some? && body.value != [] ==>
              && o.statements == [PatchStatement(id, body.value)]
              && WriteConvention(result, o.reply)
    ensures o.statements != [] && result.Err? ==> o.reply == SendText(500, "Failed to patch product")
    ensures StatusOf(o) == 200 ==> o.reply == SendJson(200, Message("Product updated partially"))
  {
    match body
    case None => Outcome([], Thrown)
    case Some(b) =>
      if |Keys(b)| == 0 then Outcome([], SendText(400, "No fields provided for update"))
      else
        Outcome([PatchStatement(id, b)],
                WriteReply(result, SendText(500, "Failed to patch product"),
                           SendJson(200, Message("Product updated partially"))))
  }

  /** DELETE /products/:id. */
  function DeleteProduct(id: string, result: Result<OkPacket, StoreError>): (o: Outcome)
    ensures o.statements == [Statement(Sql.DeleteProductById, [Str(id)])]
    ensures WriteConvention(result, o.reply)
    ensures result.Err? ==> o.reply == SendJson(500, MessageAndError("Failed to delete product", result.error.message))
    ensures StatusOf(o) == 200 ==> o.reply == SendJson(200, Message("Product deleted successfully"))
  {
    // `err.message` exists only on the error path.
    var failed := if result.Err? then result.error.message else "";
    Outcome([Statement(Sql.DeleteProductById, [Str(id)])],
            WriteReply(result, SendJson(500, MessageAndError("Failed to delete product", failed)),
                       SendJson(200, Message("Product deleted successfully"))))
  }
}
