/** The shortener's application state: a handle on the `short_urls` table,
    whose rows the two operations read and extend in place. */
module App {
  import opened Table

  class AppState {
    /** The rows of `short_urls`, from id to url. */
    var shortUrls: map<string, string>

    /** The schema's constraints: the url column is unique (the id column is
        unique because it is the map's key). */
    ghost predicate Valid()
      reads this
    {
      Injective(shortUrls)
    }

    /** Opening the database: `CREATE TABLE IF NOT EXISTS` keeps the rows an
        existing database file already holds (`map[]` for a new file), and
        those rows already satisfy the schema's constraints. */
    constructor (stored: map<string, string>)
      requires Injective(stored)
      ensures Valid()
      ensures shortUrls == stored
    {
      shortUrls := stored;
    }

    /** `AppState::shorten`, with `candidate` the id `nanoid!(6)` drew. */
    method Shorten(candidate: string, url: string) returns (r: Result<string>)
      requires Valid()
      modifies this
      ensures Valid()
      ensures Outcome(r, shortUrls) == Upsert(old(shortUrls), candidate, url)
      ensures Extends(old(shortUrls), shortUrls)
      // An url already stored wins over the candidate, colliding or not.
      ensures url in old(shortUrls).Values ==>
                shortUrls == old(shortUrls) && r.Ok? && r.value in shortUrls && shortUrls[r.value] == url
      ensures url !in old(shortUrls).Values && candidate !in old(shortUrls) ==>
                r == Ok(candidate) && shortUrls == old(shortUrls)[candidate := url]
      ensures url !in old(shortUrls).Values && candidate in old(shortUrls) ==>
                r == Err(UniqueViolation) && shortUrls == old(shortUrls)
      ensures r.Ok? ==> Lookup(shortUrls, r.value) == Ok(url)
      ensures IdsHaveLength(old(shortUrls), IdLength) && |candidate| == IdLength ==>
                IdsHaveLength(shortUrls, IdLength) && (r.Ok? ==> |r.value| == IdLength)
    {
      ghost var before := shortUrls;
      UpsertPreservesTable(before, candidate, url);
      if IdsHaveLength(before, IdLength) && |candidate| == IdLength {
        UpsertIdLength(before, candidate, url);
      }
      UpsertRoundTrip(before, candidate, url);
      if url in shortUrls.Values {
        // ON CONFLICT(url): the url's unique index finds the existing row,
        // DO UPDATE writes back the same url and RETURNING gives its id.
        var id :| id in shortUrls && shortUrls[id] == url;
        UpsertExistingUrl(before, candidate, url, id);
        shortUrls := shortUrls[id := url];
        r := Ok(id);
      } else if candidate in shortUrls {
        // The primary key refuses the row; the statement is not retried.
        r := Err(UniqueViolation);
      } else {
        shortUrls := shortUrls[candidate := url];
        r := Ok(candidate);
      }
    }

    /** `AppState::get_url`: reads the table and changes nothing. */
    method GetUrl(id: string) returns (r: Result<string>)
      ensures r == Lookup(shortUrls, id)
      ensures r.Ok? <==> id in shortUrls
      ensures r.Ok? ==> r.value == shortUrls[id]
      ensures r.Err? ==> r.error == RowNotFound
    {
      if id in shortUrls {
        r := Ok(shortUrls[id]);
      } else {
        r := Err(RowNotFound);
      }
    }
  }
}
