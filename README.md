# quote-server: a verified model of the quote store and its token gate

quote-server keeps a collection of quotes. Each quote has text, a source and a set of tags. It serves them over a JSON API, and a bearer token guards the mutating routes. This project models three parts of the server in Dafny:

- **The quote store** (`src/db.rs`):
  - `db.dfy` models it as a `Store` object whose fields stand for the database. `quotes` maps an id to its row, `tags` holds the tag rows in a sequence, and `nextId` is the id the next inserted quote gets.
  - `create_quote`, `update_quote` and `delete_quote` are methods that change those fields.
  - `get_quote_by_id` is a function that reads them. `get_all_quotes` and `get_random_quote` are methods that change nothing.
  - The invariant `Valid` holds throughout: every tag row points at an existing quote, carries a trimmed non-empty name, and no quote has the same name twice.
- **The tag normaliser** (`src/db.rs`, both in `create_quote` and `update_quote`):
  - Request tags are trimmed, blanks are dropped, duplicates collapse in a `HashSet`, and the set is sorted.
  - `tags.dfy` computes this as a pure function.
  - It proves the result is the only strictly ascending list holding that set, so any iteration order of the `HashSet` followed by `sort()` gives it.
- **Token issue and check** (`src/authjwt.rs`):
  - `authjwt.dfy` models registration against the registration key, the claims of an issued token, the expiry check after decoding, the `Authorization: Bearer` extractor and the status of every `AuthError`.
  - HS512 signing and verifying belong to the `jsonwebtoken` crate. They are the two function fields of an `Hs512` value.
- **The JSON handlers** (`src/api.rs`), in `api.dfy`:
  - The handlers put the claims extractor first, then the non-blank checks on text and source, then the store call, then the mapping of the store's result to a status and body.
  - The create, update and delete handlers are methods over a `Store`. They prove that a request refused by the gate or by validation leaves the store unchanged.

Supporting modules:

- `types.dfy`: `Option` and `Result`.
- `text.dfy`: the Rust string operations the server uses: `trim`, the `Ord` of `String`, `strip_prefix`, and `i64` formatting.
- `http.dfy`: status codes and `HeaderValue::to_str`.

The clock is the `now` argument of every operation that reads it, in whole seconds for tokens. Which quote `ORDER BY RANDOM()` picks, and the order in which a `HashSet` is iterated, are Dafny's `:|` choices. The model therefore states what holds for every choice.

Where the code and the project's stated design disagree, the model follows the code:

- **Authentication error statuses.** `AuthError::into_response` answers `InvalidToken` and `MissingCredentials` with 400, not 401 (`src/authjwt.rs:80-82`).
- **Tag order on reads.** `get_quote_by_id`, `get_all_quotes` and `get_random_quote` return tag names in an order their query does not fix: it has no `ORDER BY`, and the read path does not sort. The model uses the order of the rows in `tags`. Only `create_quote` and `update_quote` return names sorted. The model therefore relates what is read back after a write to what the write returned as a set of names (`SameUpToTagOrder`), not as a list.
- **Rollback.** The store calls are separate statements with no transaction, so no rollback is modelled.

## Model

| member | source | states |
|---|---|---|
| Text.TrimStart | src/db.rs:210 | the result is a suffix of the input; everything dropped is whitespace; it does not start with whitespace |
| Text.TrimEnd | src/db.rs:210 | the result is a prefix of the input; everything dropped is whitespace; it does not end with whitespace |
| Text.Trim | src/db.rs:210 | `str::trim` returns a slice of the input; everything outside the slice is whitespace; the slice neither starts nor ends with whitespace |
| Text.IsBlank | src/api.rs:182 | `trim().is_empty()` holds exactly when every character is whitespace |
| Text.TrimIdempotent | src/db.rs:210 | trimming a trimmed string changes nothing |
| Text.Less | src/db.rs:227 | the order of `String` that `sort()` uses is strict: no string sorts before itself |
| Text.LessIsLexicographic | src/db.rs:227 | that order is lexicographic: a proper prefix sorts first, otherwise the first differing character decides |
| Text.LessTransitive | src/db.rs:227 | the string order `sort()` uses is transitive |
| Text.LessTotal | src/db.rs:227 | of two different strings, one sorts before the other |
| Text.LessAsymmetric | src/db.rs:227 | two strings never sort before each other |
| Text.StripPrefix | src/authjwt.rs:164-166 | `strip_prefix` succeeds exactly when the string starts with the prefix; prefix followed by the rest gives back the string |
| Text.NatToStringRoundTrip | src/api.rs:127 | reading back the decimal digits of a number gives the number |
| Text.IntToString | src/api.rs:127 | `{}` of an `i64` starts with `-` exactly for negatives and is otherwise digits |
| Text.IntToStringInjective | src/api.rs:127 | different ids render to different strings |
| Http.ToStr | src/authjwt.rs:157-161 | `HeaderValue::to_str` succeeds exactly when every byte is visible ASCII or tab, and returns the same characters |
| Http.ToStrAsciiBytes | src/authjwt.rs:157-161 | a header sent as visible ASCII text is read back as that text |
| Tags.TagNameTrimmed | src/db.rs:210-211 | a valid tag name is exactly a non-empty string that `trim` leaves as it is |
| Tags.TagSet | src/db.rs:208-212 | the `HashSet` collect: every input tag that is not blank contributes its trimmed form, and every member is a valid tag name |
| Tags.TagSetOfNames | src/db.rs:208-212 | collecting a list of valid tag names gives exactly its elements |
| Tags.NormalizeAll | src/db.rs:208-227 | the normalised list is strictly ascending and holds exactly the `HashSet` of trimmed, non-blank input tags |
| Tags.Normalize | src/db.rs:205-228 | the request's tags become a strictly ascending, duplicate-free list of trimmed non-empty names, equal as a set to the `HashSet`; no tags give `[]` |
| Tags.NormalizeMembership | src/db.rs:206-212 | a name is in the output exactly when it is non-empty and some input tag trims to it |
| Tags.AscendingUnique | src/db.rs:226-227 | two strictly ascending lists with the same elements are equal |
| Tags.NormalizeIsSortedSet | src/db.rs:226-227 | whatever order the `HashSet` is collected in, sorting it gives the normalised list |
| Tags.NormalizeIdempotent | src/db.rs:205-228 | normalising an already normalised tag list returns it unchanged |
| Db.NamesOf | src/db.rs:353-362 | the tag names read for a quote are empty exactly when no row points at it |
| Db.NamesOfMembers | src/db.rs:353-362 | a name is read for a quote exactly when some tag row of that quote carries it |
| Db.NamesOfDistinct | src/db.rs:353-362 | in consistent tables, the names read for one quote have no repeats |
| Db.WithoutQuote | src/db.rs:274-277 | deleting a quote's tag rows keeps exactly the rows of other quotes and keeps names distinct per quote |
| Db.WithoutQuoteKeepsOthers | src/db.rs:274-277 | deleting one quote's tag rows does not change the names read for any other quote |
| Db.WithoutQuoteNoop | src/db.rs:274-277 | deleting the tag rows of a quote that has none changes nothing |
| Db.InsertedRowsNames | src/db.rs:214-224 | the rows inserted for a tag set read back as exactly that set of names |
| Db.TagRows | src/db.rs:214-224 | the insert loop writes one row per name of the set, each stamped `now` and pointing at the quote |
| Db.RequestNames | src/db.rs:205-212 | the `HashSet` the insert loop walks holds exactly the names of the normalised list |
| Db.NewQuoteConsistent | src/db.rs:193-202 | the fresh id is unused, and inserting the quote row under it keeps the tables consistent |
| Db.ReplaceQuoteConsistent | src/db.rs:264-277 | rewriting a quote row and deleting its tags keeps the tables consistent and leaves no row of that quote |
| Db.RemoveQuoteConsistent | src/db.rs:327-330 | deleting a quote and its tag rows keeps the tables consistent and leaves no row of that quote |
| Db.RemoveAbsentNoop | src/db.rs:323-325 | deleting the tags of an absent quote changes nothing |
| Db.RemoveKeepsOthers | src/db.rs:327-330 | deleting one quote leaves every other quote's lookup, tags included, unchanged |
| Db.InsertTables | src/db.rs:193-224 | inserting a quote row under a fresh id plus its tag rows keeps the tables consistent, gives exactly the requested names, and leaves every other quote's lookup unchanged |
| Db.ReplaceTables | src/db.rs:264-299 | rewriting a quote row, deleting its tags and inserting the new set keeps the tables consistent, gives exactly the new names (no merge), and leaves every other quote unchanged |
| Db.NewestExists | src/db.rs:382 | a nonempty set of quotes has a newest one, so `ORDER BY created_at DESC` is well defined |
| Db.ListedStep | src/db.rs:390-410 | appending a newest remaining quote, with its tags, keeps the listing complete-so-far, duplicate-free and newest first |
| Db.Lookup | src/db.rs:342-371 | the quote-plus-tags join: present exactly for a stored id, with that row's fields and exactly the names of the tag rows pointing at it |
| Db.Store.constructor | src/db.rs:108-110 | a freshly migrated database is empty and consistent |
| Db.Store.GetQuoteById | src/db.rs:337-375 | absent id gives nothing; otherwise the row's fields and exactly the names of its tag rows, without repeats |
| Db.Store.CreateQuote | src/db.rs:186-239 | one row under a fresh id with the request's text and source and both stamps `now`; appended tag rows are exactly the normalised set; the result carries the sorted names and reads back equal up to tag order; every other quote is unchanged; the tables stay consistent |
| Db.Store.UpdateQuote | src/db.rs:242-314 | absent id gives `None` and changes nothing; otherwise `created_at` is kept, `updated_at = now`, text and source are replaced; the old tag rows are gone and the new rows are exactly the new normalised set, empty when no tags are sent; other quotes are unchanged |
| Db.Store.DeleteQuote | src/db.rs:317-334 | `false` and no change for an absent id; otherwise `true`, the row and every tag row of that quote are gone, other quotes are unchanged |
| Db.Store.GetAllQuotes | src/db.rs:378-413 | every stored quote exactly once, each as `get_quote_by_id` returns it, ordered by `created_at` descending |
| Db.Store.GetRandomQuote | src/db.rs:416-460 | `None` exactly when there are no quotes; otherwise some stored quote, as `get_quote_by_id` returns it |
| AuthJwt.NewAuthBody | src/authjwt.rs:55-62 | the body carries the given token and the token type `Bearer` |
| AuthJwt.AuthBodyHeader | src/authjwt.rs:164-166 | the header a client builds from an issued body strips to exactly the token |
| AuthJwt.IntoResponse | src/authjwt.rs:74-90 | token creation failure gives 500; invalid or missing token gives 400; wrong credentials or expired token gives 401; each with its own message |
| AuthJwt.IntoResponseInjective | src/authjwt.rs:76-84 | different errors give different responses |
| AuthJwt.MakeJwtToken | src/authjwt.rs:109-129 | a wrong password gives `WrongCredentials`; otherwise the claims are issuer `quote-server.localhost`, subject `full name <email>`, expiry `now + 86400`; a signing failure gives `TokenCreation`; success returns the signed token typed `Bearer` |
| AuthJwt.WrongPasswordSignsNothing | src/authjwt.rs:114-116 | with a wrong password the answer does not depend on the keys, the signer or the clock |
| AuthJwt.ValidateToken | src/authjwt.rs:132-146 | every refusal by the library, its own expiry error included, is `InvalidToken`; decoded claims with `exp < now` are `TokenExpired`; otherwise the decoded claims unchanged, so a token is valid at its `exp` second |
| AuthJwt.ValidateTokenReportingExpiry | src/authjwt.rs:132-146 | the intended `validate_token`: the library's expiry error is `TokenExpired` as well, and only its other refusals are `InvalidToken` |
| AuthJwt.FromRequestParts | src/authjwt.rs:155-176 | an absent or non-text header is `MissingCredentials`; without the `Bearer ` prefix or without keys it is `InvalidToken`; otherwise it is the validation of what follows the prefix; never a registration error |
| AuthJwt.IssuedTokenLifecycle | src/authjwt.rs:109-176 | with the library's HS512 validation (expiry checked with 60 s leeway), an issued token sent back as `Bearer <token>` yields its claims up to its expiry second, is `TokenExpired` for the 60 s after it, and `InvalidToken` from then on |
| AuthJwt.LateTokenReportedInvalid | src/authjwt.rs:133-144 | 61 s past its expiry an issued token has expired, yet `validate_token` answers `InvalidToken` |
| AuthJwt.CorrectedTokenLifecycle | src/authjwt.rs:133-144 | with the expiry error reported as such, an issued token yields its claims up to its expiry second and is `TokenExpired` at every second after |
| Api.NotFound | src/api.rs:125-128 | 404 with a plain-text message in which the id, printed as `{}` prints it, sits between `Quote with ID ` and ` not found` |
| Api.NotFoundNamesId | src/api.rs:125-128 | the 404 message identifies the id asked for |
| Api.ValidateQuoteInput | src/api.rs:182-194 | the request passes exactly when neither text nor source is blank; blank text is reported first; each failure is 400 with its message |
| Api.CreateOutcome | src/api.rs:196-205 | store success gives 201 with the quote; failure gives 500 "Failed to create quote" |
| Api.FetchOutcome | src/api.rs:251-264 | for `update_quote` (and the same mapping in `get_quote_by_id`): `Some` gives 200 with the quote; `None` gives 404 naming the id; failure gives 500 with the handler's message |
| Api.DeleteOutcome | src/api.rs:292-305 | `true` gives 204 without a body; `false` gives 404 naming the id; failure gives 500 |
| Api.NonBlankPut | src/api.rs:182-194 | storing a row whose text and source are not blank (what the input checks let through) keeps every stored row's text and source non-blank |
| Api.Rejection | src/api.rs:329 | `e.into_response()` for a refused request or registration: always an error status (400 to 500), 500 only for a failed token build, and the error's message as the JSON body |
| Api.GetQuoteById | src/api.rs:119-137 | 200 with the stored quote exactly when the id is stored, otherwise 404 naming the id |
| Api.Register | src/api.rs:323-331 | 200 with the token body exactly when a token is issued, otherwise that error's response; a wrong password is 401 |
| Api.CreateQuote | src/api.rs:176-206 | a gate refusal or failed check answers with that error and leaves the store unchanged; otherwise 201 with the created quote, now stored under the fresh id with the returned tag set (up to order); every other quote reads back unchanged; stored text and sources stay non-blank |
| Api.UpdateQuote | src/api.rs:230-265 | a gate refusal or failed check answers with that error and leaves the store unchanged; an absent id is 404 with no change; otherwise 200 with the replaced quote, which is now stored with the returned tag set (up to order); every other quote reads back unchanged |
| Api.DeleteQuote | src/api.rs:287-306 | a gate refusal answers with that error and changes nothing; otherwise 204 and the quote is gone, or 404 with no change; every other quote reads back unchanged |

## Left out

- Database set-up, migrations and the connection pool (`init_db`, `src/db.rs:89-123`) are I/O. The model starts from an empty store.
- The CSV import (`import_quotes_from_csv`, `src/db.rs:125-183`) reads a file and parses CSV. It is not modelled.
- `db::search_quotes` and the handler that calls it (`src/api.rs:93-101`): the function is not part of this model, so its filter is not invented.
- The random-quote handler (`src/api.rs:151-156`) only wraps the store call. It is not modelled.
- Storage faults: the modelled store never fails.
  - A failure appears only as the `Err` argument of the pure outcome functions, which map it to 500.
  - Partial writes, the missing transaction and concurrent requests are not modelled. Each operation states only its final state.
- Db.Store.GetRandomQuote: states only that the quote is a stored one, not that the choice is uniform.
- Db.Store.CreateQuote: quote ids come from the `nextId` counter, which stands in for SQLite's row-id assignment (the migration is not part of this model).
  - The tag rows' own ids are not modelled.
  - Timestamps are whole seconds since the epoch (`Time`), not `DateTime<Utc>` with its sub-second part. Two quotes created in the same second are therefore tied in `get_all_quotes`, which lists tied quotes in any order.
- The ON DELETE CASCADE that removes a deleted quote's tag rows is defined in a migration that is not part of this model. `Db.Store.DeleteQuote` deletes those rows explicitly.
- AuthJwt.ValidateToken: HS512 signature checking is part of the abstract `decode`. Of the library's validation, only what it does with a token it signed is stated (`SignedTokensDecode`): the claims back until 60 s past `exp`, an expired-signature error after that.
  - The library reads the clock itself. Its reading is taken to be the same second as the server's `now`.
- AuthJwt.MakeJwtToken:
  - `Utc::now()` is the `now` argument, a `Time`.
  - The `i64` to `u64` conversion, which panics on a negative time, is not modelled.
  - `TimeDelta::days(1)` is 86400 seconds.
- Loading the JWT secret and the registration key from the environment or a file (`read_secret`, `make_jwt_keys`) is I/O. The keys and the registration key are parameters.
- The request-extension lookup of `JwtKeys` is modelled as an optional argument.
- Rejections by the `Json` and `Path` extractors (malformed bodies, non-numeric ids) happen before any handler code runs. They are not modelled.
- `src/main.rs` (router, CORS, tracing, socket), `src/templates.rs` (HTML rendering) and the OpenAPI declarations are not part of this model.

## Findings

| source | as written | input that shows it | evidently intended | confidence | as-written member | corrected member |
|---|---|---|---|---|---|---|
| src/authjwt.rs:133-144 | `Validation::new(Algorithm::HS512)` makes the library check `exp` itself, with 60 s leeway. `validate_token` maps that expiry error, like every other decode error, to `InvalidToken`, so its own `exp < now` check can answer `TokenExpired` only within 60 s of expiry | a token issued at time t and presented at t + 86400 + 61 gets 400 "Invalid token" | an expired token gets 401 "Token expired" at every second after its `exp` | medium; not executed; rests on the library's default validation | AuthJwt.LateTokenReportedInvalid | AuthJwt.CorrectedTokenLifecycle |

`AuthJwt.FromRequestParts`, and so the handlers, keep the as-written `AuthJwt.ValidateToken`, because that is how the server answers. `AuthJwt.ValidateTokenReportingExpiry` is the intended replacement, and `AuthJwt.CorrectedTokenLifecycle` proves its lifecycle.
