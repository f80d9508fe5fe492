/** The two HTTP handlers, `redirect` (GET /:id) and `shorten` (POST /),
    reduced to how they turn the state's outcomes into responses. */
module Handlers {
  import opened Table
  import App

  /** `LISTEN_ADDR`: the server's address, also the host of every short URL. */
  const ListenAddr: string := "127.0.0.1:8080"

  const StatusCreated: nat := 201
  const StatusPermanentRedirect: nat := 308
  const StatusNotFound: nat := 404
  const StatusUnprocessableEntity: nat := 422

  /** A response: its status, the `Location` header when one is set, and the
      `url` field of the JSON body when there is one. */
  datatype Response = Response(status: nat, location: Option<string>, shortUrl: Option<string>)

  /** The prefix every short URL starts with. */
  function ShortUrlPrefix(): string
  {
    "http://" + ListenAddr + "/"
  }

  /** `format!("http://{}/{}", LISTEN_ADDR, id)`. */
  function ShortUrl(id: string): (s: string)
  {
    ShortUrlPrefix() + id
  }

  /** The id a short URL carries: the inverse of `ShortUrl`. It stands in
      for the router's extraction of the single path segment of `/:id`. It
      strips the prefix only, so it matches that extraction only for ids
      with no `/` and nothing to percent-decode, which holds for the
      URL-safe ids `nanoid!` draws. */
  function ShortUrlId(s: string): (r: Option<string>)
  {
    var p := ShortUrlPrefix();
    if |p| <= |s| && s[..|p|] == p then Some(s[|p|..]) else None
  }

  /** Parsing a short URL gives back the id it was formatted from. */
  lemma {:induction false} ShortUrlRoundTrip(id: string)
    ensures ShortUrl(id)[..|ShortUrlPrefix()|] == ShortUrlPrefix()
    ensures ShortUrlId(ShortUrl(id)) == Some(id)
  {
    assert ShortUrl(id) == ShortUrlPrefix() + id;
  }

  /** A string that parses as a short URL is exactly the one formatted from
      its id, so distinct ids give distinct short URLs. */
  lemma {:induction false} ShortUrlIdExact(s: string, id: string)
    requires ShortUrlId(s) == Some(id)
    ensures ShortUrl(id) == s
  {
    var p := ShortUrlPrefix();
    assert s == s[..|p|] + s[|p|..];
  }

  /** The short URL written out with the literal address. */
  lemma {:induction false} ShortUrlLiteral(id: string)
    ensures ShortUrl(id) == "http://127.0.0.1:8080/" + id
  {
    assert ShortUrlPrefix() == "http://127.0.0.1:8080/";
  }

  lemma {:induction false} ShortUrlInjective(a: string, b: string)
    ensures ShortUrl(a) == ShortUrl(b) <==> a == b
  {
    ShortUrlRoundTrip(a);
    ShortUrlRoundTrip(b);
  }

  /** `redirect`: any failure of the lookup becomes 404; a url found becomes
      308 with `Location` set to it. */
  function RedirectResponse(lookup: Result<string>): (resp: Response)
    ensures resp.status == StatusNotFound <==> lookup.Err?
    ensures resp.status == StatusPermanentRedirect <==> lookup.Ok?
    ensures lookup.Ok? ==> resp.location == Some(lookup.value)
    ensures resp.shortUrl == None
  {
    match lookup
    case Ok(url) => Response(StatusPermanentRedirect, Some(url), None)
    case Err(_) => Response(StatusNotFound, None, None)
  }

  /** `shorten`: any failure becomes 422; a stored id becomes 201 with the
      short URL of that id in the body. */
  function ShortenResponse(shortened: Result<string>): (resp: Response)
    ensures resp.status == StatusUnprocessableEntity <==> shortened.Err?
    ensures resp.status == StatusCreated <==> shortened.Ok?
    ensures shortened.Ok? ==> resp.shortUrl.Some? && ShortUrlId(resp.shortUrl.value) == Some(shortened.value)
    ensures resp.location == None
  {
    match shortened
    case Ok(id) =>
      ShortUrlRoundTrip(id);
      Response(StatusCreated, None, Some(ShortUrl(id)))
    case Err(_) => Response(StatusUnprocessableEntity, None, None)
  }

  /** The `redirect` handler over the application state. */
  method Redirect(app: App.AppState, id: string) returns (resp: Response)
    ensures resp == RedirectResponse(Lookup(app.shortUrls, id))
    ensures id !in app.shortUrls ==> resp.status == StatusNotFound
    ensures id in app.shortUrls ==>
              resp.status == StatusPermanentRedirect && resp.location == Some(app.shortUrls[id])
  {
    var url := app.GetUrl(id);
    resp := RedirectResponse(url);
  }

  /** The `shorten` handler over the application state, with `candidate` the
      id drawn for this request. */
  method Shorten(app: App.AppState, candidate: string, url: string) returns (resp: Response)
    requires app.Valid()
    modifies app
    ensures app.Valid()
    ensures resp == ShortenResponse(Upsert(old(app.shortUrls), candidate, url).result)
    ensures app.shortUrls == Upsert(old(app.shortUrls), candidate, url).table
  {
    var id := app.Shorten(candidate, url);
    resp := ShortenResponse(id);
  }

  /** End to end: after a 201, following the short URL in its body gives a
      308 redirect to the submitted url; after a 422 the table is unchanged. */
  lemma {:induction false} ShortenThenRedirect(t: map<string, string>, candidate: string, url: string)
    ensures var o := Upsert(t, candidate, url);
            var created := ShortenResponse(o.result);
            created.status == StatusCreated ==>
              && created.shortUrl.Some?
              && ShortUrlId(created.shortUrl.value).Some?
              && RedirectResponse(Lookup(o.table, ShortUrlId(created.shortUrl.value).value))
                 == Response(StatusPermanentRedirect, Some(url), None)
    ensures var o := Upsert(t, candidate, url);
            ShortenResponse(o.result).status == StatusUnprocessableEntity ==> o.table == t
  {
    UpsertRoundTrip(t, candidate, url);
  }
}
