/**
 * The JSON handlers of `api.rs` that guard and translate store calls: the
 * authentication gate of the mutating routes, the non-blank checks on quote
 * text and source, and the mapping of every store result to a status code
 * and body. The `Claims` extractor runs first, so a request it rejects never
 * reaches the validation or the store.
 */
module Api {

  import opened Types
  import opened Text
  import Http
  import Tags
  import Db
  import AuthJwt

  /** What a handler answers with, besides the status code. */
  datatype Body =
    | QuoteJson(quote: Db.QuoteWithTags)
    | TokenJson(token: AuthJwt.AuthBody)
    | ErrorJson(error: string)
    | PlainText(text: string)
    | NoBody

  datatype Response = Response(status: int, body: Body)

  /** A failed SQL statement (`sqlx::Error`); the handlers do not look inside it. */
  datatype DbError = DbError

  /**
   * An authentication error turned into a response by `AuthError::into_response`:
   * always an error status, a server error only when no token could be
   * built, and the error's message as the JSON body.
   */
  function Rejection(e: AuthJwt.AuthError): (r: Response)
    ensures Http.BAD_REQUEST <= r.status <= Http.INTERNAL_SERVER_ERROR
    ensures r.status == Http.INTERNAL_SERVER_ERROR <==> e == AuthJwt.TokenCreation
    ensures r.body == ErrorJson(AuthJwt.IntoResponse(e).error)
  {
    var r := AuthJwt.IntoResponse(e);
    Response(r.status, ErrorJson(r.error))
  }

  /**
   * The 404 answer for an id the store does not hold: a plain-text message
   * in which the id, as `{}` prints it, sits between a fixed prefix and suffix.
   */
  function NotFound(id: int): (r: Response)
    ensures r.status == Http.NOT_FOUND && r.body.PlainText?
    ensures var text, prefix, suffix := r.body.text, "Quote with ID ", " not found";
      && |prefix| + |suffix| <= |text|
      && text[..|prefix|] == prefix
      && text[|text| - |suffix|..] == suffix
      && text[|prefix|..|text| - |suffix|] == IntToString(id)
  {
    Response(Http.NOT_FOUND, PlainText("Quote with ID " + IntToString(id) + " not found"))
  }

  /** Two 404 answers are the same only for the same id: the message names the id asked for. */
  lemma NotFoundNamesId(i: int, j: int)
    requires NotFound(i) == NotFound(j)
    ensures i == j
  {
    var pre, post := "Quote with ID ", " not found";
    var a, b := IntToString(i), IntToString(j);
    assert pre + a + post == pre + b + post;
    assert |a| == |b|;
    assert a == (pre + a + post)[|pre|..|pre| + |a|];
    assert b == (pre + b + post)[|pre|..|pre| + |b|];
    IntToStringInjective(i, j);
  }

  /**
   * The input checks of `create_quote` and `update_quote`: the text must not
   * trim to nothing, and then neither may the source; `None` lets the
   * request through.
   */
  function ValidateQuoteInput(quote: string, source: string): (r: Option<Response>)
    ensures r.None? <==> !IsBlank(quote) && !IsBlank(source)
    ensures r.Some? ==> r.value.status == Http.BAD_REQUEST
    ensures IsBlank(quote) ==> r == Some(Response(Http.BAD_REQUEST, PlainText("Quote text cannot be empty")))
    ensures !IsBlank(quote) && IsBlank(source) ==> r == Some(Response(Http.BAD_REQUEST, PlainText("Quote source cannot be empty")))
  {
    if IsBlank(quote) then
      Some(Response(Http.BAD_REQUEST, PlainText("Quote text cannot be empty")))
    else if IsBlank(source) then
      Some(Response(Http.BAD_REQUEST, PlainText("Quote source cannot be empty")))
    else
      None
  }

  /** `create_quote`'s answer to what the store returned: 201 with the quote, or 500. */
  function CreateOutcome(result: Result<Db.QuoteWithTags, DbError>): (r: Response)
    ensures r.status == Http.CREATED <==> result.Ok?
    ensures result.Ok? ==> r.body == QuoteJson(result.value)
    ensures result.Err? ==> r == Response(Http.INTERNAL_SERVER_ERROR, PlainText("Failed to create quote"))
  {
    match result
    case Ok(quote) => Response(Http.CREATED, QuoteJson(quote))
    case Err(_) => Response(Http.INTERNAL_SERVER_ERROR, PlainText("Failed to create quote"))
  }

  /**
   * The answer of `get_quote_by_id` and `update_quote` to an optional quote
   * from the store: 200 with the quote, 404 naming the id, or 500 with the
   * handler's own failure message.
   */
  function FetchOutcome(id: int, result: Result<Option<Db.QuoteWithTags>, DbError>, failure: string): (r: Response)
    ensures r.status == Http.OK <==> result.Ok? && result.value.Some?
    ensures r.status == Http.NOT_FOUND <==> result == Ok(None)
    ensures r.status == Http.INTERNAL_SERVER_ERROR <==> result.Err?
    ensures result.Ok? && result.value.Some? ==> r.body == QuoteJson(result.value.value)
    ensures result == Ok(None) ==> r == NotFound(id)
    ensures result.Err? ==> r.body == PlainText(failure)
  {
    match result
    case Ok(Some(quote)) => Response(Http.OK, QuoteJson(quote))
    case Ok(None) => NotFound(id)
    case Err(_) => Response(Http.INTERNAL_SERVER_ERROR, PlainText(failure))
  }

  /** `delete_quote`'s answer: 204 without a body, 404 naming the id, or 500. */
  function DeleteOutcome(id: int, result: Result<bool, DbError>): (r: Response)
    ensures r.status == Http.NO_CONTENT <==> result == Ok(true)
    ensures r.status == Http.NOT_FOUND <==> result == Ok(false)
    ensures r.status == Http.INTERNAL_SERVER_ERROR <==> result.Err?
    ensures result == Ok(true) ==> r.body == NoBody
    ensures result == Ok(false) ==> r == NotFound(id)
    ensures result.Err? ==> r.body == PlainText("Failed to delete quote")
  {
    match result
    case Ok(true) => Response(Http.NO_CONTENT, NoBody)
    case Ok(false) => NotFound(id)
    case Err(_) => Response(Http.INTERNAL_SERVER_ERROR, PlainText("Failed to delete quote"))
  }

  /** Every stored quote has text and a source that are not blank. */
  ghost predicate ContentNonBlank(store: Db.Store)
    reads store
  {
    NonBlankRows(store.quotes)
  }

  ghost predicate NonBlankRows(quotes: map<int, Db.Quote>) {
    forall id :: id in quotes ==> !IsBlank(quotes[id].quote) && !IsBlank(quotes[id].source)
  }

  /** Writing a row whose text and source passed the input checks keeps every row non-blank. */
  lemma NonBlankPut(quotes: map<int, Db.Quote>, q: Db.Quote)
    requires NonBlankRows(quotes) && !IsBlank(q.quote) && !IsBlank(q.source)
    ensures NonBlankRows(quotes[q.id := q])
  {
  }

  /**
   * `GET /api/v1/quotes/{id}`: the stored quote with its tags, or 404 naming
   * the id.
   */
  function GetQuoteById(store: Db.Store, id: int): (r: Response)
    reads store
    ensures r.status == Http.OK <==> id in store.quotes
    ensures id in store.quotes ==> r.body == QuoteJson(store.GetQuoteById(id).value)
    ensures id !in store.quotes ==> r == NotFound(id)
  {
    FetchOutcome(id, Ok(store.GetQuoteById(id)), "Failed to retrieve quote")
  }

  /**
   * `POST /auth`: 200 with the token body exactly when a token is issued,
   * otherwise the response of the authentication error.
   */
  function Register(lib: AuthJwt.Hs512, keys: AuthJwt.JwtKeys, regKey: string, registration: AuthJwt.Registration, now: Time): (r: Response)
    ensures r.status == Http.OK <==> AuthJwt.MakeJwtToken(lib, keys, regKey, registration, now).Ok?
    ensures r.status == Http.OK ==> r.body == TokenJson(AuthJwt.MakeJwtToken(lib, keys, regKey, registration, now).value)
    ensures r.status != Http.OK ==> r == Rejection(AuthJwt.MakeJwtToken(lib, keys, regKey, registration, now).error)
    ensures registration.password != regKey ==> r.status == Http.UNAUTHORIZED
  {
    match AuthJwt.MakeJwtToken(lib, keys, regKey, registration, now)
    case Ok(body) => Response(Http.OK, TokenJson(body))
    case Err(e) => Rejection(e)
  }

  /**
   * `POST /api/v1/quotes`: the bearer token is checked first, then the text,
   * then the source; only a request passing all three reaches the store,
   * which then holds the new quote, and the answer is 201 with it.
   */
  method CreateQuote(store: Db.Store, lib: AuthJwt.Hs512, authorization: Option<seq<Http.Byte>>, keys: Option<AuthJwt.JwtKeys>,
                     request: Db.CreateQuoteRequest, now: Time)
    returns (r: Response)
    requires store.Valid() && ContentNonBlank(store)
    modifies store
    ensures store.Valid() && ContentNonBlank(store)
    ensures AuthJwt.FromRequestParts(lib, authorization, keys, now).Err? ==>
      r == Rejection(AuthJwt.FromRequestParts(lib, authorization, keys, now).error) && unchanged(store)
    ensures AuthJwt.FromRequestParts(lib, authorization, keys, now).Ok? && ValidateQuoteInput(request.quote, request.source).Some? ==>
      r == ValidateQuoteInput(request.quote, request.source).value && unchanged(store)
    ensures r.status == Http.CREATED <==>
      AuthJwt.FromRequestParts(lib, authorization, keys, now).Ok? && ValidateQuoteInput(request.quote, request.source).None?
    ensures r.status == Http.CREATED ==>
      && r.body.QuoteJson?
      && r.body.quote == Db.QuoteWithTags(old(store.nextId), request.quote, request.source, now, now, Tags.Normalize(request.tags))
      && store.quotes == old(store.quotes)[old(store.nextId) := Db.Quote(old(store.nextId), request.quote, request.source, now, now)]
      && store.GetQuoteById(old(store.nextId)).Some?
      && Db.SameUpToTagOrder(store.GetQuoteById(old(store.nextId)).value, r.body.quote)
    ensures forall other :: other in old(store.quotes) ==> store.GetQuoteById(other) == old(store.GetQuoteById(other))
  {
    var auth := AuthJwt.FromRequestParts(lib, authorization, keys, now);
    if auth.Err? {
      return Rejection(auth.error);
    }
    var invalid := ValidateQuoteInput(request.quote, request.source);
    if invalid.Some? {
      return invalid.value;
    }
    NonBlankPut(store.quotes, Db.Quote(store.nextId, request.quote, request.source, now, now));
    var created := store.CreateQuote(request, now);
    r := CreateOutcome(Ok(created));
  }

  /**
   * `PUT /api/v1/quotes/{id}`: the same gate and checks as create; a request
   * passing them replaces the quote, answering 200 with it, or 404 naming
   * the id when there is no such quote, in which case nothing changes.
   */
  method UpdateQuote(store: Db.Store, lib: AuthJwt.Hs512, authorization: Option<seq<Http.Byte>>, keys: Option<AuthJwt.JwtKeys>,
                     id: int, request: Db.UpdateQuoteRequest, now: Time)
    returns (r: Response)
    requires store.Valid() && ContentNonBlank(store)
    modifies store
    ensures store.Valid() && ContentNonBlank(store)
    ensures AuthJwt.FromRequestParts(lib, authorization, keys, now).Err? ==>
      r == Rejection(AuthJwt.FromRequestParts(lib, authorization, keys, now).error) && unchanged(store)
    ensures AuthJwt.FromRequestParts(lib, authorization, keys, now).Ok? && ValidateQuoteInput(request.quote, request.source).Some? ==>
      r == ValidateQuoteInput(request.quote, request.source).value && unchanged(store)
    ensures AuthJwt.FromRequestParts(lib, authorization, keys, now).Ok? && ValidateQuoteInput(request.quote, request.source).None? ==>
      && (id !in old(store.quotes) ==> r == NotFound(id) && unchanged(store))
      && (id in old(store.quotes) ==>
            && r.status == Http.OK
            && r.body == QuoteJson(Db.QuoteWithTags(id, request.quote, request.source, old(store.quotes[id].createdAt), now, Tags.Normalize(request.tags)))
            && store.quotes == old(store.quotes)[id := Db.Quote(id, request.quote, request.source, old(store.quotes[id].createdAt), now)]
            && store.GetQuoteById(id).Some?
            && Db.SameUpToTagOrder(store.GetQuoteById(id).value, r.body.quote))
    ensures forall other :: other in old(store.quotes) && other != id ==> store.GetQuoteById(other) == old(store.GetQuoteById(other))
  {
    var auth := AuthJwt.FromRequestParts(lib, authorization, keys, now);
    if auth.Err? {
      return Rejection(auth.error);
    }
    var invalid := ValidateQuoteInput(request.quote, request.source);
    if invalid.Some? {
      return invalid.value;
    }
    if id in store.quotes {
      NonBlankPut(store.quotes, Db.Quote(id, request.quote, request.source, store.quotes[id].createdAt, now));
    }
    var updated := store.UpdateQuote(id, request, now);
    r := FetchOutcome(id, Ok(updated), "Failed to update quote");
  }

  /**
   * `DELETE /api/v1/quotes/{id}`: the bearer token is checked, then the
   * quote and its tags are deleted; 204 when there was one, otherwise 404
   * naming the id and nothing changes. There is no body to validate.
   */
  method DeleteQuote(store: Db.Store, lib: AuthJwt.Hs512, authorization: Option<seq<Http.Byte>>, keys: Option<AuthJwt.JwtKeys>,
                     id: int, now: Time)
    returns (r: Response)
    requires store.Valid() && ContentNonBlank(store)
    modifies store
    ensures store.Valid() && ContentNonBlank(store)
    ensures AuthJwt.FromRequestParts(lib, authorization, keys, now).Err? ==>
      r == Rejection(AuthJwt.FromRequestParts(lib, authorization, keys, now).error) && unchanged(store)
    ensures AuthJwt.FromRequestParts(lib, authorization, keys, now).Ok? ==>
      && (id !in old(store.quotes) ==> r == NotFound(id) && unchanged(store))
      && (id in old(store.quotes) ==>
            && r == Response(Http.NO_CONTENT, NoBody)
            && store.quotes == old(store.quotes) - {id}
            && store.GetQuoteById(id).None?)
    ensures forall other :: other in old(store.quotes) && other != id ==> store.GetQuoteById(other) == old(store.GetQuoteById(other))
  {
    var auth := AuthJwt.FromRequestParts(lib, authorization, keys, now);
    if auth.Err? {
      return Rejection(auth.error);
    }
    var deleted := store.DeleteQuote(id);
    r := DeleteOutcome(id, Ok(deleted));
  }
}
