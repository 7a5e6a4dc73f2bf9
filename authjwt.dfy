/**
 * Token issue and check of `authjwt.rs`: registration against the shared
 * registration key, the claims of an issued token, the explicit expiry check
 * after decoding, the `Authorization: Bearer` extractor and the mapping of
 * every authentication error to an HTTP answer.
 *
 * HS512 signing and verification belong to the `jsonwebtoken` crate and are
 * parameters here (a `Hs512` value holding the two library calls). The clock
 * is the `now` argument, in whole seconds since the epoch; the library's own
 * reading of the clock during `decode` is taken to be the same second.
 */
module AuthJwt {

  import opened Types
  import opened Text
  import Http

  /** The `iss` claim of every token this server issues. */
  const ISSUER: string := "quote-server.localhost"

  /** `TimeDelta::days(1)`, in seconds: how long an issued token is valid. */
  const TOKEN_LIFETIME: nat := 86400

  /** The `token_type` of every issued token. */
  const BEARER: string := "Bearer"

  /**
   * How many seconds past `exp` the library's own expiry check still accepts
   * a token: the default leeway of `Validation::new(Algorithm::HS512)`.
   */
  const LEEWAY: nat := 60

  /** What the extractor strips off the `Authorization` header. */
  const BEARER_PREFIX: string := "Bearer "

  /** The claims of a token (struct `Claims`); `exp` is a `u64` count of seconds. */
  datatype Claims = Claims(iss: string, sub: string, exp: Time)

  /** A registration request (struct `Registration`). */
  datatype Registration = Registration(fullName: string, email: string, password: string)

  /** The answer to a successful registration (struct `AuthBody`). */
  datatype AuthBody = AuthBody(accessToken: string, tokenType: string)

  datatype AuthError = TokenCreation | InvalidToken | WrongCredentials | MissingCredentials | TokenExpired

  /** A status code with the JSON body `{"error": message}`. */
  datatype ErrorResponse = ErrorResponse(status: int, error: string)

  /** `JwtKeys::new`: the encoding and the decoding key both come from one secret. */
  datatype JwtKeys = JwtKeys(secret: seq<Http.Byte>)

  /**
   * Why `jsonwebtoken::decode` refuses a token: its `exp` lies more than the
   * leeway in the past (`ErrorKind::ExpiredSignature`), or anything else (a
   * bad signature, a malformed token, a missing `exp`).
   */
  datatype DecodeError = ExpiredSignature | Rejected

  /**
   * The two calls into `jsonwebtoken` with an HS512 header and HS512
   * validation: `encode` signs claims with a secret (or fails), `decode`
   * checks a token's signature against a secret and its `exp` against the
   * clock, and parses its claims (or fails).
   */
  datatype Hs512 = Hs512(
    encode: (seq<Http.Byte>, Claims) -> Option<string>,
    decode: (seq<Http.Byte>, string, Time) -> Result<Claims, DecodeError>)

  /**
   * What the library does with a token it signed, decoded with the same
   * secret: it gives back the signed claims until `LEEWAY` seconds past their
   * `exp`, and an expired-signature error after that.
   */
  ghost predicate SignedTokensDecode(lib: Hs512, secret: seq<Http.Byte>) {
    forall c: Claims, now: Time :: lib.encode(secret, c).Some? ==>
      lib.decode(secret, lib.encode(secret, c).value, now) == (if c.exp + LEEWAY < now then Err(ExpiredSignature) else Ok(c))
  }

  /** `AuthBody::new`: the given token, typed `Bearer`. */
  function NewAuthBody(accessToken: string): (b: AuthBody)
    ensures b.accessToken == accessToken && b.tokenType == BEARER
  {
    AuthBody(accessToken, BEARER)
  }

  /** The `Authorization` header a client sends with a token it was given. */
  function AuthorizationHeader(body: AuthBody): string {
    body.tokenType + " " + body.accessToken
  }

  /** The header a client builds from an issued body carries the `Bearer ` prefix and then exactly the token. */
  lemma AuthBodyHeader(token: string)
    ensures StripPrefix(AuthorizationHeader(NewAuthBody(token)), BEARER_PREFIX) == Some(token)
  {
    var h := AuthorizationHeader(NewAuthBody(token));
    assert h == BEARER_PREFIX + token;
    assert h[..|BEARER_PREFIX|] == BEARER_PREFIX;
    assert h[|BEARER_PREFIX|..] == token;
  }

  /**
   * `into_response`: a failed token build is a server error, a bad or missing
   * token is a bad request, a wrong password or an expired token is unauthorised.
   */
  function IntoResponse(e: AuthError): (r: ErrorResponse)
    ensures r.status == Http.INTERNAL_SERVER_ERROR <==> e == TokenCreation
    ensures r.status == Http.BAD_REQUEST <==> e == InvalidToken || e == MissingCredentials
    ensures r.status == Http.UNAUTHORIZED <==> e == WrongCredentials || e == TokenExpired
    ensures e == TokenCreation ==> r.error == "Token creation failed"
    ensures e == InvalidToken ==> r.error == "Invalid token"
    ensures e == WrongCredentials ==> r.error == "Wrong credentials"
    ensures e == MissingCredentials ==> r.error == "Missing credentials"
    ensures e == TokenExpired ==> r.error == "Token expired"
  {
    match e
    case TokenCreation => ErrorResponse(Http.INTERNAL_SERVER_ERROR, "Token creation failed")
    case InvalidToken => ErrorResponse(Http.BAD_REQUEST, "Invalid token")
    case WrongCredentials => ErrorResponse(Http.UNAUTHORIZED, "Wrong credentials")
    case MissingCredentials => ErrorResponse(Http.BAD_REQUEST, "Missing credentials")
    case TokenExpired => ErrorResponse(Http.UNAUTHORIZED, "Token expired")
  }

  /** Every error has its own response, so a client can always tell which check failed. */
  lemma IntoResponseInjective(e1: AuthError, e2: AuthError)
    requires IntoResponse(e1) == IntoResponse(e2)
    ensures e1 == e2
  {
  }

  /**
   * `make_jwt_token`: a password other than the registration key is refused;
   * otherwise the claims name this server as issuer and `"full name <email>"`
   * as subject, expire one day after `now`, and are signed; a signing
   * failure is a token-creation error.
   */
  function MakeJwtToken(lib: Hs512, keys: JwtKeys, regKey: string, registration: Registration, now: Time): (r: Result<AuthBody, AuthError>)
    ensures r == Err(WrongCredentials) <==> registration.password != regKey
    ensures r == Err(TokenCreation) <==>
      registration.password == regKey &&
      lib.encode(keys.secret, Claims(ISSUER, registration.fullName + " <" + registration.email + ">", now + TOKEN_LIFETIME)).None?
    ensures r.Ok? ==>
      && lib.encode(keys.secret, Claims(ISSUER, registration.fullName + " <" + registration.email + ">", now + TOKEN_LIFETIME)) == Some(r.value.accessToken)
      && r.value.tokenType == BEARER
  {
    if registration.password != regKey then
      Err(WrongCredentials)
    else
      var claims := Claims(ISSUER, registration.fullName + " <" + registration.email + ">", now + TOKEN_LIFETIME);
      match lib.encode(keys.secret, claims)
      case None => Err(TokenCreation)
      case Some(token) => Ok(NewAuthBody(token))
  }

  /**
   * A wrong password is refused before anything is signed: the answer does
   * not depend on the signing library, the key or the clock.
   */
  lemma WrongPasswordSignsNothing(lib1: Hs512, lib2: Hs512, keys1: JwtKeys, keys2: JwtKeys, regKey: string, registration: Registration, now1: Time, now2: Time)
    requires registration.password != regKey
    ensures MakeJwtToken(lib1, keys1, regKey, registration, now1) == MakeJwtToken(lib2, keys2, regKey, registration, now2)
  {
  }

  /**
   * `validate_token`: a token the library refuses, for whatever reason, is
   * invalid; decoded claims whose `exp` lies before `now` are expired;
   * otherwise the claims as decoded.
   */
  function ValidateToken(lib: Hs512, keys: JwtKeys, token: string, now: Time): (r: Result<Claims, AuthError>)
    ensures r == Err(InvalidToken) <==> lib.decode(keys.secret, token, now).Err?
    ensures r == Err(TokenExpired) <==> lib.decode(keys.secret, token, now).Ok? && lib.decode(keys.secret, token, now).value.exp < now
    ensures r.Ok? <==> lib.decode(keys.secret, token, now).Ok? && now <= lib.decode(keys.secret, token, now).value.exp
    ensures r.Ok? ==> Ok(r.value) == lib.decode(keys.secret, token, now)
  {
    match lib.decode(keys.secret, token, now)
    case Err(_) => Err(InvalidToken)
    case Ok(claims) => if claims.exp < now then Err(TokenExpired) else Ok(claims)
  }

  /**
   * `validate_token` as its error variants say it is meant to answer: the
   * library's expired-signature error is an expired token too, and only the
   * other refusals are invalid tokens.
   */
  function ValidateTokenReportingExpiry(lib: Hs512, keys: JwtKeys, token: string, now: Time): (r: Result<Claims, AuthError>)
    ensures r == Err(InvalidToken) <==> lib.decode(keys.secret, token, now) == Err(Rejected)
    ensures r == Err(TokenExpired) <==>
      || lib.decode(keys.secret, token, now) == Err(ExpiredSignature)
      || (lib.decode(keys.secret, token, now).Ok? && lib.decode(keys.secret, token, now).value.exp < now)
    ensures r.Ok? ==> Ok(r.value) == lib.decode(keys.secret, token, now) && now <= r.value.exp
  {
    match lib.decode(keys.secret, token, now)
    case Err(ExpiredSignature) => Err(TokenExpired)
    case Err(Rejected) => Err(InvalidToken)
    case Ok(claims) => if claims.exp < now then Err(TokenExpired) else Ok(claims)
  }

  /**
   * `from_request_parts`: an absent header, or one that is not visible
   * ASCII, is missing credentials; a header without the `Bearer ` prefix, or
   * a request without keys attached, is an invalid token; otherwise the rest
   * of the header is validated with those keys.
   */
  function FromRequestParts(lib: Hs512, authorization: Option<seq<Http.Byte>>, extension: Option<JwtKeys>, now: Time): (r: Result<Claims, AuthError>)
    ensures r == Err(MissingCredentials) <==> authorization.None? || Http.ToStr(authorization.value).None?
    ensures authorization.Some? && Http.ToStr(authorization.value).Some? ==>
      var header := Http.ToStr(authorization.value).value;
      && (StripPrefix(header, BEARER_PREFIX).None? ==> r == Err(InvalidToken))
      && (StripPrefix(header, BEARER_PREFIX).Some? && extension.None? ==> r == Err(InvalidToken))
      && (StripPrefix(header, BEARER_PREFIX).Some? && extension.Some? ==>
            r == ValidateToken(lib, extension.value, header[|BEARER_PREFIX|..], now))
    ensures r != Err(WrongCredentials) && r != Err(TokenCreation)
  {
    match authorization
    case None => Err(MissingCredentials)
    case Some(value) =>
      match Http.ToStr(value)
      case None => Err(MissingCredentials)
      case Some(header) =>
        match StripPrefix(header, BEARER_PREFIX)
        case None => Err(InvalidToken)
        case Some(token) =>
          match extension
          case None => Err(InvalidToken)
          case Some(keys) => ValidateToken(lib, keys, token, now)
  }

  /** The claims `make_jwt_token` signs for a registration at time `now`. */
  function IssuedClaims(registration: Registration, now: Time): Claims {
    Claims(ISSUER, registration.fullName + " <" + registration.email + ">", now + TOKEN_LIFETIME)
  }

  /**
   * The life of a token as the server answers it: a token issued at
   * `issuedAt` and sent back as `Bearer <token>` to a server holding the same
   * keys yields the issued claims up to and including the expiry second, is
   * an expired token for the `LEEWAY` seconds after that, and is an invalid
   * token from then on, because the library refuses it first.
   */
  lemma IssuedTokenLifecycle(lib: Hs512, keys: JwtKeys, regKey: string, registration: Registration, issuedAt: Time, now: Time)
    requires SignedTokensDecode(lib, keys.secret)
    requires MakeJwtToken(lib, keys, regKey, registration, issuedAt).Ok?
    requires var body := MakeJwtToken(lib, keys, regKey, registration, issuedAt).value;
      forall i :: 0 <= i < |body.accessToken| ==> Http.IsVisibleChar(body.accessToken[i])
    ensures
      var body := MakeJwtToken(lib, keys, regKey, registration, issuedAt).value;
      var claims := IssuedClaims(registration, issuedAt);
      var header := AuthorizationHeader(body);
      && (forall i :: 0 <= i < |header| ==> Http.IsVisibleChar(header[i]))
      && FromRequestParts(lib, Some(Http.AsciiBytes(header)), Some(keys), now)
           == (if now <= claims.exp then Ok(claims)
               else if now <= claims.exp + LEEWAY then Err(TokenExpired)
               else Err(InvalidToken))
  {
    var body := MakeJwtToken(lib, keys, regKey, registration, issuedAt).value;
    var claims := IssuedClaims(registration, issuedAt);
    assert lib.encode(keys.secret, claims) == Some(body.accessToken);
    assert lib.decode(keys.secret, body.accessToken, now) == (if claims.exp + LEEWAY < now then Err(ExpiredSignature) else Ok(claims));
    var header := AuthorizationHeader(body);
    assert body == NewAuthBody(body.accessToken);
    AuthBodyHeader(body.accessToken);
    assert forall i :: 0 <= i < |header| ==> Http.IsVisibleChar(header[i]) by {
      assert header == BEARER_PREFIX + body.accessToken;
      forall i | 0 <= i < |header| ensures Http.IsVisibleChar(header[i]) {
        if i >= |BEARER_PREFIX| {
          assert header[i] == body.accessToken[i - |BEARER_PREFIX|];
        }
      }
    }
    Http.ToStrAsciiBytes(header);
  }

  /**
   * One second past the leeway, an issued token has expired, yet
   * `validate_token` answers that it is invalid, not that it is expired.
   */
  lemma LateTokenReportedInvalid(lib: Hs512, keys: JwtKeys, regKey: string, registration: Registration, issuedAt: Time)
    requires SignedTokensDecode(lib, keys.secret)
    requires MakeJwtToken(lib, keys, regKey, registration, issuedAt).Ok?
    ensures
      var token := MakeJwtToken(lib, keys, regKey, registration, issuedAt).value.accessToken;
      var now := issuedAt + TOKEN_LIFETIME + LEEWAY + 1;
      && IssuedClaims(registration, issuedAt).exp < now
      && ValidateToken(lib, keys, token, now) == Err(InvalidToken)
  {
    var token := MakeJwtToken(lib, keys, regKey, registration, issuedAt).value.accessToken;
    var claims := IssuedClaims(registration, issuedAt);
    assert lib.encode(keys.secret, claims) == Some(token);
    assert lib.decode(keys.secret, token, issuedAt + TOKEN_LIFETIME + LEEWAY + 1) == Err(ExpiredSignature);
  }

  /**
   * With the expiry error reported as such, an issued token yields its
   * claims up to and including the expiry second and is an expired token at
   * every second after it.
   */
  lemma CorrectedTokenLifecycle(lib: Hs512, keys: JwtKeys, regKey: string, registration: Registration, issuedAt: Time, now: Time)
    requires SignedTokensDecode(lib, keys.secret)
    requires MakeJwtToken(lib, keys, regKey, registration, issuedAt).Ok?
    ensures
      var token := MakeJwtToken(lib, keys, regKey, registration, issuedAt).value.accessToken;
      var claims := IssuedClaims(registration, issuedAt);
      ValidateTokenReportingExpiry(lib, keys, token, now) == (if now <= claims.exp then Ok(claims) else Err(TokenExpired))
  {
    var token := MakeJwtToken(lib, keys, regKey, registration, issuedAt).value.accessToken;
    var claims := IssuedClaims(registration, issuedAt);
    assert lib.encode(keys.secret, claims) == Some(token);
    assert lib.decode(keys.secret, token, now) == (if claims.exp + LEEWAY < now then Err(ExpiredSignature) else Ok(claims));
  }
}
