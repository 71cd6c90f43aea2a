# APIWork decision layer in Dafny

This project models the decision logic of a small e-commerce backend built on
Express and MySQL. Two files hold product handlers:

- `retrieve.js` has user signup and login, and a bearer-token middleware
  (`authenticateToken`) in front of every product route.
- `crud.js` has no authentication. It has HEAD and OPTIONS routes, which
  retrieve.js lacks.

Nothing in the source dates either file. The model names them "earlier"
(crud.js) and "later" (retrieve.js) only as an assumption, because
retrieve.js adds authentication around the same product routes.

Each handler is a pure function. It takes the request fields and the results
of the external calls it makes. It returns an `Outcome`: the parameterised
SQL statements it sends to the store, in order, and its one `Reply`.

- Store results are inputs. A handler reads the result of a statement only
  when it issues that statement.
- bcrypt and jsonwebtoken are function parameters (`hash`, `compare`, `sign`,
  `verify`). They stand for the library calls made with the process-wide
  secret key.
- A request body is `Option<Body>`. `None` means `req.body` is undefined.
  What then happens depends on the handler:
  - signup destructures it inside a `try`, catches the error and answers 500;
  - login and the POST and PUT handlers of retrieve.js, and the POST handler
    of crud.js, destructure it and throw (`Reply.Thrown`), so Express's own
    error handler answers;
  - both PATCH handlers throw from `Object.keys(undefined)` (retrieve.js:180,
    crud.js:97);
  - the PUT handler of crud.js tests `req.body` first and answers 400
    "Request body is missing." (crud.js:65);
  - GET, DELETE, HEAD and OPTIONS never read the body.
- JavaScript values, truthiness, loose `== null`, `Object.keys` and
  `Object.values`, `split(' ')` and `join(', ')` are modelled exactly in
  module `Js`.

Modules, one per file:

- `Wrappers`: `Option` and `Result`.
- `Js`: JavaScript values and the built-ins listed above.
- `Http`: statements, responses, replies, and the UPDATE/DELETE result
  convention (`WriteConvention`, `WriteReply`).
- `Sql`: the statement texts and the PATCH builder.
- `Auth`: `authenticateToken`. It has a pure decision function, a `Request`
  class whose `user` field the `Authenticate` method sets, and `Guarded`,
  which puts the middleware in front of a handler.
- `Retrieve`: the handlers of retrieve.js.
- `Crud`: the handlers of crud.js.
- `Revisions`: how the two files relate.

Main results:

- The token is exactly the second `' '`-separated segment of the header.
  The scheme word is never checked.
- Nothing reaches the store unless the token verified.
- Login answers every failure with the same 401.
- Signup stores the bcrypt hash (cost 10) and never the plaintext.
- The PATCH statement binds each key's own value and then the id. When no
  key contains `?`, the i-th `?` of its text (counting from 0) is the one in
  key i's `key = ?` assignment, and parameter i is key i's value.
- crud.js refuses exactly the bodies retrieve.js refuses, plus those whose
  price or stock is present but falsy (0, `false`, `""`).

The PATCH text holds one `?` character per key and one for the id, plus
every `?` inside the keys. So it holds as many `?` characters as there are
parameters exactly when no key contains `?`. Keys come from the request
unchecked, so a key such as `stock?` leaves the text with more `?`
characters than parameters (`Sql.QuestionMarkInKeyBreaksPairing`). The model
counts `?` characters; how the driver reads runs of `?` is under "Left out".

In these places the model follows the code, which a reader might not expect:

- Signup reads only `email` and `password`, and inserts only those two
  columns.
- Login answers a store error with the same 401 as a wrong password, not 500.
- The middleware stores the whole decoded payload (`userId`, `email`, `iat`,
  `exp`) as `req.user`.
- The PUT and DELETE handlers of retrieve.js put `err.message` in their 500
  body.
- PATCH in retrieve.js matches on the `id` column. Every other statement
  matches on `product_id`.
- Product creation in crud.js tests truthiness, so it refuses a price or
  stock of 0.

## Model

| member | source | states |
|---|---|---|
| `Js.Truthy` | retrieve.js:57 | the falsy values are exactly undefined, null, false, 0 and the empty string |
| `Js.IsNullish` | retrieve.js:129 | `v == null` holds exactly for null and undefined, and both are falsy |
| `Js.Get` | retrieve.js:127 | reading a key no entry has gives undefined; reading a present key gives the value of an entry with that key |
| `Js.GetAt` | crud.js:103 | in an object with unique keys, reading any entry's key gives that entry's value |
| `Js.Keys` | retrieve.js:184 | `Object.keys` lists the keys in entry order (by its definition); it has one key per entry, each key once; reading key i gives entry i's value; any key not listed reads undefined |
| `Js.Values` | retrieve.js:185 | `Object.values` has one value per entry, and value i is what reading key i gives |
| `Js.ValuesOf` | crud.js:103 | `keys.map(key => fields[key])` has one element per key; over the body's own keys it equals `Object.values`; a key the body lacks gives undefined |
| `Js.Count` | crud.js:102 | the `?`-character measure behind the PATCH invariant (the source counts nothing itself): a character's count in a string is 0 exactly when the string does not contain it |
| `Js.CountOfConcat` | crud.js:105 | part of the same measure: counts add up over the concatenation that builds the UPDATE text |
| `Js.NoOccurrences` | crud.js:102 | part of the same measure: a character occurs nowhere in the keys exactly when no key contains it |
| `Js.Join` | retrieve.js:186 | `join(sep)`: every character the separator lacks occurs in the result as often as in the parts together |
| `Js.JoinAt` | retrieve.js:186 | in `parts.join(sep)`, part i sits after the parts before it, each followed by the separator, and before the separator and the later parts |
| `Js.Split` | retrieve.js:36 | `split(' ')` yields at least one segment, and no segment contains the separator |
| `Js.SplitJoin` | retrieve.js:36 | joining the segments with the separator gives back the original header |
| `Js.SplitUnique` | retrieve.js:36 | splitting a join of separator-free pieces gives back exactly those pieces, so split is determined |
| `Js.SplitAfterFirstSeparator` | retrieve.js:36 | a space-free word followed by a space becomes the first segment; the rest is split on its own |
| `Http.WriteConvention` | retrieve.js:190-194 | an UPDATE or DELETE answers 200, 404 or 500; 500 exactly on a store error; 404 exactly when no row was affected |
| `Http.WriteReply` | crud.js:107-115 | the shared callback of every UPDATE and DELETE: given a 500 and a 200 reply it follows the write convention, and it answers with one of those two or 404 "Product not found" |
| `Sql.Assignments` | retrieve.js:186 | one assignment per key, each holding its key's `?` characters and exactly one more |
| `Sql.AssignmentsPlaceholders` | crud.js:102 | over a key list, the assignments hold one `?` per key plus every `?` inside the keys |
| `Sql.SetClause` | retrieve.js:186 | the SET clause holds one `?` per key plus every `?` inside the keys; where each assignment sits is stated by `Sql.SetClauseAt` |
| `Sql.SetClauseAt` | retrieve.js:186 | key i's `key = ?` sits in the SET clause with the `?` characters of the earlier assignments ahead of it and those of the later ones behind it |
| `Sql.PartialUpdate` | retrieve.js:188-190 | the statement built from keys, values, a column and an id: its parameters are the values in order, then the id; its `?` count is stated by `Sql.PartialUpdatePlaceholders` and the place of each assignment by `Sql.PartialUpdatePairing` |
| `Sql.StatementPlaceholders` | crud.js:105 | the UPDATE text holds the SET clause's `?` characters, the column's, and one for the id |
| `Sql.PartialUpdatePlaceholders` | retrieve.js:184-190 | `?` characters = keys + 1 + every `?` in the keys and the column; with one value per key, the `?` characters equal the parameters in number exactly when neither any key nor the column contains `?` |
| `Sql.PartialUpdateAt` | retrieve.js:186-190 | in the UPDATE text, key i's assignment has the earlier assignments' `?` characters ahead of it, and behind it the later ones', the column's and the id's |
| `Sql.PartialUpdatePairing` | crud.js:102-107 | when neither the keys nor the column contain `?`, key i's assignment holds the i-th `?` of the UPDATE text, with one `?` behind it for each later key and one for the id |
| `Sql.QuestionMarkInKeyBreaksPairing` | crud.js:102-107 | with one value per key, any key containing `?` gives more `?` characters than parameters |
| `Auth.BearerToken` | retrieve.js:36-37 | a token found is non-empty and space-free; a header without a space carries no token |
| `Auth.AuthenticateToken` | retrieve.js:32-48 | missing or empty header gives 401 "Authorization header missing"; a non-empty header without a token gives 401 "Token missing from header"; a token that verifies proceeds with its claims, and proceeding happens only then; 403 exactly when a token was found and failed to verify; every refusal is one of the three responses |
| `Auth.TokenIsSecondSegment` | retrieve.js:36-37 | for a header of space-free segments, the token is the second segment when it exists and is non-empty, otherwise there is none ("Bearer", "Bearer ") |
| `Auth.FoundTokenShape` | retrieve.js:36 | a found token sits between a space-free scheme word plus a space and either the end or another space |
| `Auth.SchemeNeverChecked` | retrieve.js:36 | any two space-free scheme words before the first space lead to the same decision |
| `Auth.HeaderExamples` | retrieve.js:37 | "Bearer" and "Bearer " give 401 "Token missing from header"; "Bearer abc" carries the token "abc" |
| `Auth.Authenticate` | retrieve.js:32-48 | on refusal, sends the refusal, never calls `next` and leaves `req.user` alone; otherwise sets `req.user` to the decoded claims, sends nothing and calls `next` once |
| `Auth.Guarded` | retrieve.js:118 | no statement is issued unless the token verified; without a header the answer is 401 with no statement; a verified request gets the handler's outcome; a refused request gets exactly the middleware's own response (401 or 403) and no statement |
| `Retrieve.SignupFieldsPresent` | retrieve.js:57 | signup's check passes only when both `email` and `password` are present and neither is the empty string |
| `Retrieve.Signup` | retrieve.js:52-91 | outcomes are exactly 201, 400, 409 or 500; 400 "Email and password are required" exactly when email or password is falsy, before any statement; 409 "Email already registered" exactly when the email is already registered; a failed lookup gives exactly the one SELECT and 500 "Database error"; a 409 follows exactly the one SELECT; the insert happens exactly for a fresh email and stores the bcrypt hash at cost 10, not the plaintext; a failed insert gives 500 "User registration failed"; 201 "User registered successfully" exactly when the insert succeeds; an undefined body gives 500 "Internal server error" |
| `Retrieve.LoginMatches` | retrieve.js:100-105 | credentials match only when the lookup found a user, and then exactly when the password compares equal to the first user's stored hash |
| `Retrieve.Login` | retrieve.js:95-115 | one lookup by email; every failure (store error, no user, mismatch) gives the identical 401 "Invalid credentials"; 200 exactly when the first user's hash matches the password, with a token signed over that user's id and email with expiry "1h" |
| `Retrieve.ListProducts` | retrieve.js:118-123 | one SELECT of all products; 200 with the rows exactly when the store answered, else 500 "Failed to retrieve products" |
| `Retrieve.FieldsPresent` | retrieve.js:129 | the later check passes only when all four fields are present, with neither price nor stock null |
| `Retrieve.AddProduct` | retrieve.js:126-142 | 400 with no statement unless name and description are truthy and price and stock are not null or undefined; otherwise one INSERT of the four fields; 201 with `productId` equal to the store's `insertId` exactly when the insert succeeds |
| `Retrieve.ReplaceProduct` | retrieve.js:146-172 | same check as creation; one UPDATE binding the four fields and then the id; the write convention (500 / 404 "Product not found" / 200); the 500 body carries `err.message`; the 200 body is "Product updated successfully" |
| `Retrieve.PatchStatement` | retrieve.js:184-188 | one parameter per key and then the id; parameter i is the value read under key i; the `?` characters equal the parameters in number exactly when no key contains `?`; when no key contains `?`, the i-th `?` is in key i's assignment, with i `?` characters ahead of it and the rest behind |
| `Retrieve.PatchProduct` | retrieve.js:176-196 | an empty body gives 400 with no statement; otherwise one partial UPDATE over the body's keys and `Object.values`, matched on `id`, under the write convention, with 200 "Product updated partially" |
| `Retrieve.DeleteProduct` | retrieve.js:199-216 | one DELETE by `product_id`; the write convention; the 500 body carries `err.message`; the 200 body is "Product deleted successfully" |
| `Crud.FieldsTruthy` | crud.js:44 | the earlier check passes only when all four fields are present, with neither price nor stock 0 |
| `Crud.AddProduct` | crud.js:41-61 | 400 with no statement unless all four fields are truthy; otherwise one INSERT; 201 with `productId` equal to `insertId` exactly when it succeeds |
| `Crud.ReplaceProduct` | crud.js:64-90 | an undefined body gives 400 "Request body is missing." before the field check; then the truthiness check; one UPDATE; the write convention with text replies |
| `Crud.PatchStatement` | crud.js:97-105 | one parameter per key and then the id; parameter i is entry i's value; the `?` characters equal the parameters in number exactly when no key contains `?`; when no key contains `?`, the i-th `?` is in the assignment of entry i's key |
| `Crud.PatchPairing` | crud.js:102-107 | when no key contains `?`, the i-th `?` of the PATCH text is in the assignment of entry i's key |
| `Crud.PatchProduct` | crud.js:93-117 | zero keys gives 400 with no statement; otherwise one partial UPDATE matched on `product_id`, under the write convention |
| `Crud.HeadProduct` | crud.js:120-136 | one existence probe by `product_id`; status only: 500 exactly on a store error, 404 exactly on no row, 200 exactly on a row |
| `Crud.Options` | crud.js:139-142 | 200 with `Allow: GET, POST, PUT, DELETE, PATCH, HEAD, OPTIONS` and no statement |
| `Crud.DeleteProduct` | crud.js:145-159 | one DELETE by `product_id`; the write convention with text replies |
| `Revisions.ValidationGap` | crud.js:44-45 | every body crud.js accepts retrieve.js accepts; retrieve.js accepts and crud.js refuses exactly when price or stock is present but falsy |
| `Revisions.ZeroPriceAcceptedOnlyByLaterRevision` | crud.js:44-45 | a product priced 0, otherwise complete, is inserted by retrieve.js and refused by crud.js with 400 and no statement |
| `Revisions.AddProductAgrees` | crud.js:41-61 | on bodies crud.js accepts, both files issue the same INSERT and answer with the same status |
| `Revisions.ReplaceProductAgrees` | crud.js:64-90 | on bodies crud.js accepts, both files issue the same UPDATE and answer with the same status |
| `Revisions.PatchDiffersOnlyInIdColumn` | crud.js:97-105 | both PATCH statements are the same builder over the body's keys and values; only the id column differs (`id` and `product_id`) |
| `Revisions.PatchStatusesAgree` | crud.js:93-117 | both PATCH handlers answer every request with the same status |
| `Revisions.DeleteProductAgrees` | crud.js:145-159 | both DELETE handlers issue the same statement and answer with the same status |

GET /products in crud.js (crud.js:28-38) is the same handler as in
retrieve.js, without the token check. Both are `Retrieve.ListProducts`.

## Left out

- Server setup is left out as I/O plumbing: environment loading, the database
  connection, `app.listen`, Express routing and body parsing.
- What the statements do to the tables is the store's business. Store
  results are inputs.
- bcrypt and jsonwebtoken are total oracle parameters. Their internals are
  left out: hashing, comparison, signing, verification and expiry timing.
  For tokens the model records only that login passes `expiresIn: "1h"`.
- Retrieve.Signup: `bcrypt.hash` rejects a password that is not a string,
  such as a number. The rejection escapes the `async` query callback as an
  unhandled promise rejection, which by default ends the process on Node 15
  and later. The `hash` oracle is total, so this is not modelled.
- Retrieve.Login: `bcrypt.compare` rejects in the same way when `password`
  is missing or not a string and the email exists (retrieve.js:103). The
  `compare` oracle is total, so this is not modelled.
- The signup `try` block catches only synchronous errors. In the model the
  only one is destructuring an undefined body.
- Callback and async ordering is left out. Each handler is one sequential
  decision.
- Logging is left out (`console.log`, `console.error`).
- The driver's reading of runs of `?` is not modelled. mysql2 formats the
  text with `sqlstring`, which fills `??` with an escaped identifier and
  skips runs of three or more `?`. The model counts `?` characters, so its
  pairing statements and `Sql.QuestionMarkInKeyBreaksPairing` hold for `?`
  characters and not for the driver's placeholders: a key such as `a???`
  adds `?` characters but no placeholder, and the values still pair up.
- The response Express's default error handler sends for `Reply.Thrown` is
  framework behaviour and is not modelled.
- Whether `req.body` can be undefined depends on the body-parser version.
  The model allows it in every handler.
- A JSON array body behaves as an object whose keys are its indices. The
  model takes every body as its entries, already in `Object.keys` order.
  The order JavaScript gives integer-like keys is not modelled.
- Duplicate keys in a JSON text collapse to one property, so `Body` has
  unique keys.
- JSON numbers that overflow to Infinity are not modelled.
- Statement texts use single spaces where the source's template literals
  have line breaks and indentation.
- `res.sendStatus` also sends the status's reason phrase as the body. The
  model records only the status (`StatusOnly`).
- Response headers other than `Allow` are not modelled.
- `Apiconsume.php` and `index.js` are not part of this model. They are a
  cURL/HTML client and a hello-world route.
