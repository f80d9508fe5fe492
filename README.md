# URL shortener: the `short_urls` table and its two operations

This project models the core of the axum/SQLite URL shortener in
`examples/shorturl.rs`. It proves that shortening is idempotent, that ids and
urls stay in one-to-one correspondence, that a shortened id looks up to its url,
that an unknown id is not found, and that ids keep length 6.

- The service keeps one table, `short_urls`, with columns `id TEXT PRIMARY KEY` and `url TEXT NOT NULL UNIQUE`. It is modelled as a `map<string, string>` from id to url. The keys give uniqueness of ids. The predicate `Table.Injective` states uniqueness of urls. Together they make the table a one-to-one map between ids and urls.
- `AppState::shorten` runs `INSERT … ON CONFLICT(url) DO UPDATE SET url=EXCLUDED.url RETURNING id` with a fresh `nanoid!(6)` candidate. Its meaning is the pure function `Table.Upsert`:
  - An url already stored returns its stored id, whatever the candidate is, and the table stays as it was. The update writes the same url back.
  - A new url with an unused candidate inserts the row (candidate, url).
  - A new url whose candidate id is taken violates the primary key. The statement fails with no retry.
- `AppState::get_url` is `Table.Lookup`: it returns the url for an id, or `RowNotFound`.
- The class `App.AppState` holds the rows in a `map` field. Its `Shorten` method changes that field in place, and its `GetUrl` method reads it. Both are proved against `Upsert` and `Lookup`.
- `Table.Replay` applies a run of shorten requests in order. The lemmas about it give the service-level guarantees:
  - One url always gets the same id.
  - Distinct urls never share an id.
  - Every id handed out still resolves to its url.
  - Ids keep length 6.
- Module `Handlers` models the two HTTP handlers:
  - a failed lookup gives 404;
  - a found url gives 308 with `Location` set to that url;
  - a failed shorten gives 422;
  - a successful shorten gives 201 with body url `http://127.0.0.1:8080/<id>`.

  `ShortUrlId` parses a short URL back into its id. It is the inverse of the `format!`.

Files: `table.dfy` (module `Table`), `app_state.dfy` (module `App`), `handlers.dfy` (module `Handlers`).

Inputs that stand in for effects:
- The id `nanoid!(6)` draws is the parameter `candidate` of `Shorten`.
- The rows an existing database file already holds are the parameter of the `AppState` constructor (`map[]` for a new file).

What the service does not do:
- It does not validate the url. Any string is accepted, including the empty one.
- It makes one attempt per request (lines 117-122). A taken candidate fails the request with 422.
- Every failure of `get_url` becomes 404 (line 72), and every failure of `shorten` becomes 422 (lines 83-86). Failures raised before or after these calls are outside the model: see the "## Left out" lines on JSON body parsing and on `Location` header parsing.

## Model

| member | source | states |
|---|---|---|
| Table.Injective | examples/shorturl.rs:103-106 | the UNIQUE constraint on the url column: no two ids hold the same url; with the id as the map's key, the table is one-to-one |
| Table.Upsert | examples/shorturl.rs:117-123 | a stored url returns its id and the table is unchanged; a new url with a free candidate inserts (candidate, url) and returns the candidate; a new url with a taken candidate fails with UniqueViolation and changes nothing |
| Table.IdFor | examples/shorturl.rs:105-118 | the url's unique index finds a row holding that url; under the UNIQUE constraint it is the only such row |
| Table.Lookup | examples/shorturl.rs:127-133 | the lookup succeeds iff the id is a key, returns the stored url then, and fails with RowNotFound otherwise |
| Table.UpsertExistingUrl | examples/shorturl.rs:118 | an url already stored returns its stored id whatever the candidate (even a colliding one) and leaves the table exactly as it was |
| Table.UpsertFreshRow | examples/shorturl.rs:117-123 | a new url with an unused candidate returns the candidate and adds exactly the row (candidate, url), every other row unchanged |
| Table.UpsertIdCollision | examples/shorturl.rs:104-122 | a new url whose candidate id is taken fails with the primary-key violation, once, and leaves the table unchanged |
| Table.UpsertFailsIff | examples/shorturl.rs:104-122 | the statement fails exactly when the url is new and the candidate is taken, and the only failure is the primary-key violation |
| Table.UpsertPreservesTable | examples/shorturl.rs:103-106 | every statement keeps the url column unique and never changes or removes a stored row |
| Table.UpsertRoundTrip | examples/shorturl.rs:116-133 | a returned id looks up to the submitted url in the new table |
| Table.UpsertIdempotent | examples/shorturl.rs:118 | shortening the same url again, with any candidate, returns the same id and changes nothing |
| Table.UpsertIdLength | examples/shorturl.rs:117 | with 6-character candidates and 6-character stored ids, every returned and stored id has length 6 |
| Table.Replay | examples/shorturl.rs:116-124 | a run of requests answers each request exactly once |
| Table.ReplayKeepsRows | examples/shorturl.rs:103-133 | through any run of requests the url column stays unique, no row is lost or changed, and every id handed out resolves to its request's url at the end |
| Table.ReplayBijection | examples/shorturl.rs:103-124 | in a run of requests, two successful answers carry the same id iff their urls are equal |
| Table.ReplayIdLength | examples/shorturl.rs:117 | with 6-character candidates, every id a run of requests hands out or stores has length 6 |
| App.AppState.Valid | examples/shorturl.rs:103-106 | the state's rows satisfy the schema's constraints: ids unique (map keys) and urls unique (`Injective`) |
| App.AppState.constructor | examples/shorturl.rs:94-113 | the state starts from rows that already satisfy the schema's constraints (empty for a new database) |
| App.AppState.Shorten | examples/shorturl.rs:116-124 | the new rows and the answer are those of the upsert: an existing url wins, a fresh pair is inserted, a taken candidate fails with no change; constraints kept, returned id resolves to the url, length 6 kept |
| App.AppState.GetUrl | examples/shorturl.rs:127-133 | equals `Lookup` of the current rows: the stored url iff the id is a key, RowNotFound otherwise; modifies nothing |
| Handlers.ShortUrl | examples/shorturl.rs:88 | the short URL of an id is `http://127.0.0.1:8080/` followed by the id |
| Handlers.ShortUrlLiteral | examples/shorturl.rs:16-88 | the short URL of an id is exactly `"http://127.0.0.1:8080/" + id`, the listen address written out |
| Handlers.ShortUrlRoundTrip | examples/shorturl.rs:88 | the short URL starts with `http://127.0.0.1:8080/` and parses back to its id |
| Handlers.ShortUrlIdExact | examples/shorturl.rs:88 | a string that parses to an id is exactly the short URL of that id |
| Handlers.ShortUrlInjective | examples/shorturl.rs:88 | two ids give the same short URL iff they are equal |
| Handlers.RedirectResponse | examples/shorturl.rs:65-77 | status 404 iff the lookup failed in any way, 308 iff it succeeded, with Location equal to the url found |
| Handlers.ShortenResponse | examples/shorturl.rs:79-91 | status 422 iff shortening failed in any way, 201 iff it succeeded, with a body url that parses back to the stored id |
| Handlers.Redirect | examples/shorturl.rs:65-77 | GET /:id answers 404 for an unknown id and 308 to the stored url for a known one |
| Handlers.Shorten | examples/shorturl.rs:79-91 | POST / answers with the response of the upsert's outcome and leaves the table the upsert leaves |
| Handlers.ShortenThenRedirect | examples/shorturl.rs:69-90 | after a 201, the id in its body redirects (308) to the submitted url; after a 422 the table is unchanged |

## Left out

- `main`, the router, the TCP listener and the tracing setup (lines 41-63), and the `warn!` on a failed shorten (line 84): process wiring, logging and I/O.
- Creating and connecting to the SQLite database in `try_new` (lines 94-100, 108-112): I/O. Only the schema's constraints are kept, as the class invariant `Valid`.
- I/O and connection failures of the database are not modelled. Every failure the model produces is either the primary-key violation or a missing row. The response mapping still sends any error to 404 or 422.
- The randomness of `nanoid!`: a library call. The candidate id is a parameter. The library's 64-symbol alphabet is not modelled; only the length 6 requested at line 117 is.
- Async execution, connection pooling and concurrent callers: SQLite makes each statement atomic, and that is not code this model can see. The model applies statements one at a time.
- JSON body parsing and serialisation (`Json<ShortenReq>`, line 81; `Json(ShortenRes …)`, lines 87-89): library code. The extractor answers a malformed body or a missing JSON content type with its own rejection status, before `shorten` runs, and the model has no such response. The body is modelled as the `url` field it carries.
- `Location` header parsing (`url.parse().unwrap()`, line 75): library code. It panics instead of answering on a url that is not a valid header value.
- Path extraction of `/:id` (lines 56, 66): router code. `Handlers.ShortUrlId` strips the prefix only. It agrees with the router for ids with no `/` and nothing to percent-decode, such as the ids `nanoid!` draws.
- Handlers.RedirectResponse: does not model the panic of `url.parse().unwrap()` on an url that is not a valid header value. Such an url gets 308 in the model.
