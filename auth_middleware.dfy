/** Request-authentication middleware: `IsLogin` takes the bearer token from
    the Authorization header, has it verified, and on success copies the
    token's claims into the request headers before handing the request on;
    `IsAdmin` lets a request through only when its role header is "admin". */
module AuthMiddleware {
  import opened Basics

  const Unauthorized := "Unauthorized access"
  const InvalidPayload := "Invalid token payload"
  const TokenExpired := "Token expired"
  const InvalidToken := "Invalid token"
  const InternalError := "Internal server error"
  const AccessDenied := "Access denied"

  // ------------------------------------------------- splitting the header

  /** `s.split(sep)` for a one-character separator: the pieces between
      separators, empty ones included, and always at least one piece. */
  function Split(s: string, sep: char): (parts: seq<string>)
    ensures |parts| >= 1
    ensures forall i | 0 <= i < |parts| :: sep !in parts[i]
    decreases |s|
  {
    if s == [] then [""]
    else
      var rest := Split(s[1..], sep);
      if s[0] == sep then [""] + rest
      else [[s[0]] + rest[0]] + rest[1..]
  }

  /** `parts.join(sep)`. */
  function Join(parts: seq<string>, sep: char): string
    requires |parts| >= 1
    decreases |parts|
  {
    if |parts| == 1 then parts[0] else parts[0] + [sep] + Join(parts[1..], sep)
  }

  /** Splitting loses nothing: joining the pieces gives the string back. */
  lemma {:induction false} SplitJoin(s: string, sep: char)
    ensures Join(Split(s, sep), sep) == s
    decreases |s|
  {
    if s != [] {
      SplitJoin(s[1..], sep);
      var rest := Split(s[1..], sep);
      if s[0] != sep {
        var parts := Split(s, sep);
        assert parts[0] == [s[0]] + rest[0];
        if |rest| > 1 {
          assert parts[1..] == rest[1..];
        }
      }
    }
  }

  /** A string without the separator is a single piece. */
  lemma {:induction false} SplitWithoutSeparator(a: string, sep: char)
    requires sep !in a
    ensures Split(a, sep) == [a]
    decreases |a|
  {
    if a != [] {
      SplitWithoutSeparator(a[1..], sep);
      assert [a[0]] + a[1..] == a;
    }
  }

  /** A separator after a separator-free prefix ends the first piece there. */
  lemma {:induction false} SplitAtFirstSeparator(a: string, b: string, sep: char)
    requires sep !in a
    ensures Split(a + [sep] + b, sep) == [a] + Split(b, sep)
    decreases |a|
  {
    var s := a + [sep] + b;
    if a == [] {
      assert s[1..] == b;
    } else {
      assert s[1..] == a[1..] + [sep] + b;
      SplitAtFirstSeparator(a[1..], b, sep);
      assert [a[0]] + a[1..] == a;
    }
  }

  function Header(headers: map<string, string>, name: string): Option<string>
  {
    if name in headers then Some(headers[name]) else None
  }

  /** `authorization?.split(" ")[1]`, where an absent or empty piece is no token. */
  function BearerToken(authorization: Option<string>): (token: Option<string>)
    ensures token.Some? ==> token.value != "" && ' ' !in token.value
    ensures authorization.None? ==> token.None?
  {
    if authorization.None? then None
    else
      var parts := Split(authorization.value, ' ');
      if |parts| > 1 && parts[1] != "" then Some(parts[1]) else None
  }

  /** "Bearer <token>" yields the token, and so does any header whose second
      space-separated piece is the token, whatever follows it. */
  lemma BearerTokenOfHeader(scheme: string, token: string, tail: string)
    requires ' ' !in scheme && ' ' !in token && token != ""
    requires tail == [] || tail[0] == ' '
    ensures BearerToken(Some(scheme + " " + token + tail)) == Some(token)
  {
    var h := scheme + " " + token + tail;
    assert h == scheme + [' '] + (token + tail);
    SplitAtFirstSeparator(scheme, token + tail, ' ');
    if tail == [] {
      assert token + tail == token;
      SplitWithoutSeparator(token, ' ');
    } else {
      assert token + tail == token + [' '] + tail[1..];
      SplitAtFirstSeparator(token, tail[1..], ' ');
    }
  }

  /** A header without a space, "Bearer " and "Bearer  x" (two spaces) carry no token. */
  lemma NoTokenWithoutSecondPiece(scheme: string, rest: string)
    requires ' ' !in scheme
    ensures BearerToken(Some(scheme)) == None
    ensures BearerToken(Some(scheme + " ")) == None
    ensures BearerToken(Some(scheme + "  " + rest)) == None
  {
    SplitWithoutSeparator(scheme, ' ');
    assert scheme + " " == scheme + [' '] + "";
    SplitAtFirstSeparator(scheme, "", ' ');
    assert scheme + "  " + rest == scheme + [' '] + ([' '] + rest);
    SplitAtFirstSeparator(scheme, [' '] + rest, ' ');
    assert [' '] + rest == [] + [' '] + rest;
    SplitAtFirstSeparator([], rest, ' ');
  }

  // --------------------------------------------------- verifying the token

  /** The decoded payload fields the middleware reads. */
  datatype Claims = Claims(id: Option<string>, email: Option<string>, role: Option<string>)

  /** What `jwt.verify` throws. `TokenExpiredError` and `NotBeforeError`
      are subclasses of `JsonWebTokenError`. */
  datatype VerifyError = TokenExpiredError | NotBeforeError | JsonWebTokenError | OtherError(message: string)

  /** `error instanceof jwt.JsonWebTokenError`. */
  predicate IsJsonWebTokenError(e: VerifyError)
  {
    e.TokenExpiredError? || e.NotBeforeError? || e.JsonWebTokenError?
  }

  /** What `jwt.verify(token, secret)` does: return an object payload,
      return a string payload, or throw. */
  datatype Verified = Decoded(claims: Claims) | StringPayload(text: string) | Threw(error: VerifyError)

  /** The decision `isLogin` takes. */
  datatype Check = Pass(claims: Claims) | Deny(status: nat, message: string)

  /** The catch block: expiry is tested before the general JWT error class. */
  function ClassifyError(e: VerifyError): (r: Check)
    ensures r.Deny?
    ensures r.status == 401 <==> IsJsonWebTokenError(e)
    ensures r.status != 401 ==> r.status == 500 && r.message == InternalError
    ensures e.TokenExpiredError? ==> r.message == TokenExpired
    ensures e.NotBeforeError? || e.JsonWebTokenError? ==> r.message == InvalidToken
  {
    if e.TokenExpiredError? then Deny(401, TokenExpired)
    else if IsJsonWebTokenError(e) then Deny(401, InvalidToken)
    else Deny(500, InternalError)
  }

  /** `verify` is `jwt.verify` with the configured secret. */
  function Authenticate(authorization: Option<string>, verify: string -> Verified): (r: Check)
    ensures BearerToken(authorization).None? ==> r == Deny(401, Unauthorized)
    ensures r.Pass? <==> BearerToken(authorization).Some? && verify(BearerToken(authorization).value).Decoded?
    ensures r.Pass? ==> r.claims == verify(BearerToken(authorization).value).claims
    ensures BearerToken(authorization).Some? && verify(BearerToken(authorization).value).StringPayload? ==>
              r == Deny(401, InvalidPayload)
    ensures BearerToken(authorization).Some? && verify(BearerToken(authorization).value).Threw? ==>
              r == ClassifyError(verify(BearerToken(authorization).value).error)
  {
    match BearerToken(authorization)
    case None => Deny(401, Unauthorized)
    case Some(token) =>
      match verify(token)
      case StringPayload(_) => Deny(401, InvalidPayload)
      case Threw(e) => ClassifyError(e)
      case Decoded(claims) => Pass(claims)
  }

  // ------------------------------------------------------ the middlewares

  /** Whether the middleware handed the request on (`next()`) or answered it. */
  datatype Outcome = Next | Respond(status: nat, message: string)

  /** Assigning a possibly `undefined` value to a header. */
  function SetHeader(headers: map<string, string>, name: string, v: Option<string>): (h: map<string, string>)
    ensures Header(h, name) == v
    ensures forall k | k != name :: Header(h, k) == Header(headers, k)
  {
    if v.Some? then headers[name := v.value] else headers - {name}
  }

  /** `req.headers.id = id; req.headers.email = email; req.headers.role = role`. */
  function WithClaims(headers: map<string, string>, c: Claims): (h: map<string, string>)
    ensures Header(h, "id") == c.id && Header(h, "email") == c.email && Header(h, "role") == c.role
    ensures forall k | k != "id" && k != "email" && k != "role" :: Header(h, k) == Header(headers, k)
  {
    SetHeader(SetHeader(SetHeader(headers, "id", c.id), "email", c.email), "role", c.role)
  }

  /** The request as the middlewares see it: a mutable header table. */
  class Request {
    var headers: map<string, string>

    constructor (headers: map<string, string>)
      ensures this.headers == headers
    {
      this.headers := headers;
    }
  }

  /** `isLogin`: on a verified token the claims are written into the
      request's headers and the request goes on; otherwise it is answered
      and its headers are left alone. */
  method IsLogin(req: Request, verify: string -> Verified) returns (r: Outcome)
    modifies req
    ensures var check := Authenticate(Header(old(req.headers), "authorization"), verify);
            && (check.Pass? ==> r == Next && req.headers == WithClaims(old(req.headers), check.claims))
            && (check.Deny? ==> r == Respond(check.status, check.message) && req.headers == old(req.headers))
  {
    var token := BearerToken(Header(req.headers, "authorization"));
    if token.None? {
      return Respond(401, Unauthorized);
    }
    var decodedRaw := verify(token.value);
    match decodedRaw {
      case StringPayload(_) =>
        return Respond(401, InvalidPayload);
      case Threw(e) =>
        var c := ClassifyError(e);
        return Respond(c.status, c.message);
      case Decoded(decoded) =>
        req.headers := SetHeader(req.headers, "id", decoded.id);
        req.headers := SetHeader(req.headers, "email", decoded.email);
        req.headers := SetHeader(req.headers, "role", decoded.role);
        r := Next;
    }
  }

  /** `isAdmin`. */
  function IsAdmin(headers: map<string, string>): (r: Outcome)
    ensures r == Next <==> Header(headers, "role") == Some("admin")
    ensures r != Next ==> r == Respond(403, AccessDenied)
  {
    if Header(headers, "role") != Some("admin") then Respond(403, AccessDenied) else Next
  }

  /** Behind `isLogin`, `isAdmin` admits exactly the requests whose verified
      token carries the role claim "admin", whatever role header the client
      sent itself. */
  lemma AdminRouteAdmitsOnlyAdminClaims(headers: map<string, string>, verify: string -> Verified)
    requires Authenticate(Header(headers, "authorization"), verify).Pass?
    ensures var c := Authenticate(Header(headers, "authorization"), verify).claims;
            IsAdmin(WithClaims(headers, c)) == Next <==> c.role == Some("admin")
  {
  }
}
