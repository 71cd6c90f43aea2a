/**
  `authenticateToken` (retrieve.js): the bearer-token middleware that guards
  every product route of the later revision. The JWT verifier, which closes
  over the process-wide secret key, is a parameter returning claims or an error.
*/
module Auth {
  import opened Wrappers
  import opened Js
  import opened Http

  /** The decoded payload of a token this service signed. */
  datatype Claims = Claims(userId: Value, email: Value, iat: int, exp: int)

  /** Why `jwt.verify` refused a token. */
  datatype VerifyError = Expired | Malformed | BadSignature

  type Verifier = string -> Result<Claims, VerifyError>

  /** The middleware either answers the request itself or passes it on with the claims. */
  datatype AuthOutcome = Reject(response: Response) | Proceed(user: Claims)

  const HeaderMissing: Response := Response(401, None, Json(Message("Authorization header missing")))
  const TokenMissing: Response := Response(401, None, Json(Message("Token missing from header")))
  const InvalidToken: Response := Response(403, None, Json(Message("Invalid or expired token")))

  /** `authHeader.split(' ')[1]` when it is a non-empty string, else nothing. */
  function BearerToken(header: string): (t: Option<string>)
    ensures t.Some? ==> t.value != "" && ' ' !in t.value
    ensures ' ' !in header ==> t == None
  {
    var segments := Split(header, ' ');
    if ' ' !in header then
      SplitUnique([header], ' ');
      None
    else if |segments| > 1 && segments[1] != "" then Some(segments[1])
    else None
  }

  /** The middleware's decision for a request with the given `Authorization` header. */
  function AuthenticateToken(header: Option<string>, verify: Verifier): (a: AuthOutcome)
    ensures header == None || header == Some("") ==> a == Reject(HeaderMissing)
    ensures header.Some? && header.value != "" && BearerToken(header.value).None? ==> a == Reject(TokenMissing)
    ensures header.Some? && BearerToken(header.value).Some? && verify(BearerToken(header.value).value).Ok? ==>
              a == Proceed(verify(BearerToken(header.value).value).value)
    ensures a.Proceed? ==>
              && header.Some?
              && BearerToken(header.value).Some?
              && verify(BearerToken(header.value).value) == Ok(a.user)
    ensures a.Reject? ==> a.response in {HeaderMissing, TokenMissing, InvalidToken}
    ensures a == Reject(InvalidToken) <==>
              && header.Some?
              && BearerToken(header.value).Some?
              && verify(BearerToken(header.value).value).Err?
  {
    if header == None || header == Some("") then Reject(HeaderMissing)
    else match BearerToken(header.value)
      case None => Reject(TokenMissing)
      case Some(token) =>
        match verify(token)
        case Err(_) => Reject(InvalidToken)
        case Ok(user) => Proceed(user)
  }

  /** The token is exactly the second of the header's space-separated segments:
      it is found when that segment exists and is not empty. */
  lemma TokenIsSecondSegment(segments: seq<string>)
    requires |segments| >= 1
    requires forall k :: 0 <= k < |segments| ==> ' ' !in segments[k]
    ensures BearerToken(Join(segments, " ")) ==
              if |segments| > 1 && segments[1] != "" then Some(segments[1]) else None
  {
    SplitUnique(segments, ' ');
    assert [' '] == " ";
  }

  /** Conversely, a token found in a header is preceded by a space-free scheme
      word and followed by nothing or by another space. */
  lemma FoundTokenShape(header: string) returns (scheme: string, rest: string)
    requires BearerToken(header).Some?
    ensures ' ' !in scheme
    ensures rest == "" || rest[0] == ' '
    ensures header == scheme + " " + BearerToken(header).value + rest
  {
    var segments := Split(header, ' ');
    assert |segments| > 1 && BearerToken(header).value == segments[1];
    SplitJoin(header, ' ');
    var tail := segments[1..];
    scheme := segments[0];
    rest := if |tail| > 1 then " " + Join(tail[1..], " ") else "";
    assert [' '] == " ";
    assert Join(tail, " ") == segments[1] + rest;
  }

  /** The scheme word is never inspected: any space-free word before the first
      space leads to the same decision. */
  lemma SchemeNeverChecked(scheme1: string, scheme2: string, rest: string, verify: Verifier)
    requires ' ' !in scheme1 && ' ' !in scheme2
    ensures AuthenticateToken(Some(scheme1 + " " + rest), verify)
         == AuthenticateToken(Some(scheme2 + " " + rest), verify)
  {
    assert [' '] == " ";
    SplitAfterFirstSeparator(scheme1, rest, ' ');
    SplitAfterFirstSeparator(scheme2, rest, ' ');
    assert (scheme1 + " " + rest)[|scheme1|] == ' ';
    assert (scheme2 + " " + rest)[|scheme2|] == ' ';
  }

  /** "Bearer" and "Bearer " carry no token; "Bearer abc" carries "abc". */
  lemma HeaderExamples(verify: Verifier)
    ensures AuthenticateToken(Some("Bearer"), verify) == Reject(TokenMissing)
    ensures AuthenticateToken(Some("Bearer "), verify) == Reject(TokenMissing)
    ensures BearerToken("Bearer abc") == Some("abc")
  {
    TokenIsSecondSegment(["Bearer", ""]);
    assert Join(["Bearer", ""], " ") == "Bearer ";
    TokenIsSecondSegment(["Bearer", "abc"]);
    assert Join(["Bearer", "abc"], " ") == "Bearer abc";
  }

  /** The request object the middleware annotates. */
  class Request {
    const authorization: Option<string>
    var user: Option<Claims>

    constructor (authorization: Option<string>)
      ensures this.authorization == authorization && user == None
    {
      this.authorization := authorization;
      user := None;
    }
  }

  /** Runs the middleware on `req`: either sends a response and never calls
      `next`, or stores the decoded claims in `req.user` and calls `next`
      exactly once without sending anything. */
  method Authenticate(req: Request, verify: Verifier) returns (sent: Option<Response>, nextCalls: nat)
    modifies req`user
    ensures match AuthenticateToken(req.authorization, verify)
            case Reject(r) => sent == Some(r) && nextCalls == 0 && req.user == old(req.user)
            case Proceed(u) => sent == None && nextCalls == 1 && req.user == Some(u)
  {
    var authHeader := req.authorization;
    if authHeader == None || authHeader == Some("") {
      return Some(HeaderMissing), 0;
    }
    var token := BearerToken(authHeader.value);
    if token == None {
      return Some(TokenMissing), 0;
    }
    var verified := verify(token.value);
    if verified.Err? {
      return Some(InvalidToken), 0;
    }
    req.user := Some(verified.value);
    sent, nextCalls := None, 1;
  }

  /** A route guarded by the middleware: the handler runs, and issues its
      statements, only when the token verified. */
  function Guarded(header: Option<string>, verify: Verifier, handler: Outcome): (o: Outcome)
    ensures o.statements != [] ==> AuthenticateToken(header, verify).Proceed?
    ensures header == None ==> o == Outcome([], Send(HeaderMissing))
    ensures AuthenticateToken(header, verify).Proceed? ==> o == handler
    ensures AuthenticateToken(header, verify).Reject? ==> StatusOf(o) == 401 || StatusOf(o) == 403
    ensures AuthenticateToken(header, verify).Reject? ==>
              o == Outcome([], Send(AuthenticateToken(header, verify).response))
  {
    match AuthenticateToken(header, verify)
    case Reject(r) => Outcome([], Send(r))
    case Proceed(_) => handler
  }
}
