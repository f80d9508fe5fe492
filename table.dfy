/** The `short_urls` table of the URL shortener and the meaning of the two
    statements run against it.

    The table has two columns, `id TEXT PRIMARY KEY` and `url TEXT NOT NULL
    UNIQUE`. It is modelled as a map from id to url: the map's keys are
    unique by construction (the primary key), and the uniqueness of the url
    column is the predicate `Injective`. */
module Table {

  datatype Option<+T> = None | Some(value: T)

  /** The failures the two statements can report: the primary-key constraint
      on `id` refusing a row, and `fetch_one` finding no row. */
  datatype Error = UniqueViolation | RowNotFound

  datatype Result<+T> = Ok(value: T) | Err(error: Error)

  /** `nanoid!(6)`: the length of every id the service draws. */
  const IdLength: nat := 6

  /** The UNIQUE constraint on the url column: no two ids share a url. */
  ghost predicate Injective(t: map<string, string>)
  {
    forall a, b :: a in t && b in t && a != b ==> t[a] != t[b]
  }

  /** Every stored id has length `n`. */
  ghost predicate IdsHaveLength(t: map<string, string>, n: nat)
  {
    forall id :: id in t ==> |id| == n
  }

  /** Every row of `t` is still present, unchanged, in `t'`. */
  ghost predicate Extends(t: map<string, string>, t': map<string, string>)
  {
    forall id :: id in t ==> id in t' && t'[id] == t[id]
  }

  /** The row the url's unique index finds: the id stored for `url`. */
  ghost function IdFor(t: map<string, string>, url: string): (id: string)
    requires url in t.Values
    ensures id in t && t[id] == url
    ensures Injective(t) ==> forall other :: other in t && t[other] == url ==> other == id
  {
    var id :| id in t && t[id] == url; id
  }

  /** `SELECT url FROM short_urls WHERE id = $1`, read with `fetch_one`. */
  function Lookup(t: map<string, string>, id: string): (r: Result<string>)
    ensures r.Ok? <==> id in t
    ensures r.Ok? ==> r.value == t[id]
    ensures r.Err? ==> r.error == RowNotFound
  {
    if id in t then Ok(t[id]) else Err(RowNotFound)
  }

  /** What one statement returns and the table it leaves behind. */
  datatype Outcome = Outcome(result: Result<string>, table: map<string, string>)

  /** `INSERT INTO short_urls (id, url) VALUES (candidate, url)
      ON CONFLICT(url) DO UPDATE SET url = EXCLUDED.url RETURNING id`.
      The conflict target (the url index) is consulted first: an url already
      stored wins over a colliding candidate, and the update rewrites the url
      with itself. A candidate id already used by another url violates the
      primary key, which the ON CONFLICT clause does not cover, so the
      statement fails and changes nothing. */
  ghost function Upsert(t: map<string, string>, candidate: string, url: string): Outcome
  {
    if url in t.Values then
      var id := IdFor(t, url);
      Outcome(Ok(id), t[id := url])
    else if candidate in t then
      Outcome(Err(UniqueViolation), t)
    else
      Outcome(Ok(candidate), t[candidate := url])
  }

  /** An url already stored is answered with its stored id whatever the
      candidate, and the table is left as it was. */
  lemma {:induction false} UpsertExistingUrl(t: map<string, string>, candidate: string, url: string, id: string)
    requires Injective(t)
    requires id in t && t[id] == url
    ensures Upsert(t, candidate, url) == Outcome(Ok(id), t)
  {
    assert t[id := url] == t;
  }

  /** A new url with an unused candidate adds exactly the row (candidate, url). */
  lemma {:induction false} UpsertFreshRow(t: map<string, string>, candidate: string, url: string)
    requires url !in t.Values && candidate !in t
    ensures Upsert(t, candidate, url).result == Ok(candidate)
    ensures Upsert(t, candidate, url).table.Keys == t.Keys + {candidate}
    ensures Upsert(t, candidate, url).table[candidate] == url
    ensures Extends(t, Upsert(t, candidate, url).table)
  {
  }

  /** A new url whose candidate id is taken fails once, with no retry, and
      leaves the table unchanged. */
  lemma {:induction false} UpsertIdCollision(t: map<string, string>, candidate: string, url: string)
    requires url !in t.Values && candidate in t
    ensures Upsert(t, candidate, url) == Outcome(Err(UniqueViolation), t)
  {
  }

  /** The only failure of the statement is the primary-key violation, and it
      happens exactly when the url is new and the candidate is taken. */
  lemma {:induction false} UpsertFailsIff(t: map<string, string>, candidate: string, url: string)
    ensures Upsert(t, candidate, url).result.Err?
        <==> url !in t.Values && candidate in t
    ensures Upsert(t, candidate, url).result.Err? ==>
              Upsert(t, candidate, url).result.error == UniqueViolation
  {
  }

  /** Both uniqueness constraints survive every statement, and no stored row
      is ever changed or removed. */
  lemma {:induction false} UpsertPreservesTable(t: map<string, string>, candidate: string, url: string)
    requires Injective(t)
    ensures Injective(Upsert(t, candidate, url).table)
    ensures Extends(t, Upsert(t, candidate, url).table)
  {
    var t' := Upsert(t, candidate, url).table;
    if url in t.Values {
      UpsertExistingUrl(t, candidate, url, IdFor(t, url));
    } else if candidate !in t {
      forall a, b | a in t' && b in t' && a != b
        ensures t'[a] != t'[b]
      {
        if a == candidate {
          assert t[b] in t.Values;
        } else if b == candidate {
          assert t[a] in t.Values;
        }
      }
    }
  }

  /** A successful statement returns an id that now resolves to the url. */
  lemma {:induction false} UpsertRoundTrip(t: map<string, string>, candidate: string, url: string)
    ensures Upsert(t, candidate, url).result.Ok? ==>
              Lookup(Upsert(t, candidate, url).table, Upsert(t, candidate, url).result.value) == Ok(url)
  {
  }

  /** Running the statement a second time for the same url, with any
      candidate, returns the same id and changes nothing. */
  lemma {:induction false} UpsertIdempotent(t: map<string, string>, c1: string, c2: string, url: string)
    requires Injective(t)
    requires Upsert(t, c1, url).result.Ok?
    ensures Upsert(Upsert(t, c1, url).table, c2, url)
         == Outcome(Upsert(t, c1, url).result, Upsert(t, c1, url).table)
  {
    var o := Upsert(t, c1, url);
    UpsertPreservesTable(t, c1, url);
    UpsertExistingUrl(o.table, c2, url, o.result.value);
  }

  /** With candidates of length 6 and a table whose ids all have length 6,
      every id returned and every id stored has length 6. */
  lemma {:induction false} UpsertIdLength(t: map<string, string>, candidate: string, url: string)
    requires IdsHaveLength(t, IdLength) && |candidate| == IdLength
    ensures IdsHaveLength(Upsert(t, candidate, url).table, IdLength)
    ensures Upsert(t, candidate, url).result.Ok? ==> |Upsert(t, candidate, url).result.value| == IdLength
  {
  }

  /** One call of the service's shorten operation: the url submitted and the
      candidate id drawn for it. */
  datatype Request = Request(candidate: string, url: string)

  /** The table after a run of requests and what each request was answered. */
  datatype History = History(table: map<string, string>, results: seq<Result<string>>)

  /** The requests applied one after another, in order, to the table `t`. */
  ghost function Replay(t: map<string, string>, reqs: seq<Request>): (h: History)
    ensures |h.results| == |reqs|
    decreases |reqs|
  {
    if reqs == [] then History(t, [])
    else
      var o := Upsert(t, reqs[0].candidate, reqs[0].url);
      var rest := Replay(o.table, reqs[1..]);
      History(rest.table, [o.result] + rest.results)
  }

  /** Through any run of requests the table keeps both uniqueness constraints,
      never loses or changes a row, and every id a request was answered with
      still maps to that request's url at the end. */
  lemma {:induction false} ReplayKeepsRows(t: map<string, string>, reqs: seq<Request>)
    requires Injective(t)
    ensures Injective(Replay(t, reqs).table)
    ensures Extends(t, Replay(t, reqs).table)
    ensures forall i :: 0 <= i < |reqs| && Replay(t, reqs).results[i].Ok? ==>
              Lookup(Replay(t, reqs).table, Replay(t, reqs).results[i].value) == Ok(reqs[i].url)
    decreases |reqs|
  {
    if reqs != [] {
      var o := Upsert(t, reqs[0].candidate, reqs[0].url);
      UpsertPreservesTable(t, reqs[0].candidate, reqs[0].url);
      ReplayKeepsRows(o.table, reqs[1..]);
      var h := Replay(t, reqs);
      forall i | 0 <= i < |reqs| && h.results[i].Ok?
        ensures Lookup(h.table, h.results[i].value) == Ok(reqs[i].url)
      {
        if i > 0 {
          assert h.results[i] == Replay(o.table, reqs[1..]).results[i - 1];
          assert reqs[i] == reqs[1..][i - 1];
        }
      }
    }
  }

  /** Across a run of requests, one url is always answered with one id, and
      distinct urls are never answered with the same id. */
  lemma {:induction false} ReplayBijection(t: map<string, string>, reqs: seq<Request>, i: nat, j: nat)
    requires Injective(t)
    requires i < |reqs| && j < |reqs|
    requires Replay(t, reqs).results[i].Ok? && Replay(t, reqs).results[j].Ok?
    ensures reqs[i].url == reqs[j].url
        <==> Replay(t, reqs).results[i].value == Replay(t, reqs).results[j].value
  {
    ReplayKeepsRows(t, reqs);
    var h := Replay(t, reqs);
    assert Lookup(h.table, h.results[i].value) == Ok(reqs[i].url);
    assert Lookup(h.table, h.results[j].value) == Ok(reqs[j].url);
  }

  /** With candidates of length 6, every id a run of requests hands out has
      length 6. */
  lemma {:induction false} ReplayIdLength(t: map<string, string>, reqs: seq<Request>)
    requires IdsHaveLength(t, IdLength)
    requires forall i :: 0 <= i < |reqs| ==> |reqs[i].candidate| == IdLength
    ensures IdsHaveLength(Replay(t, reqs).table, IdLength)
    ensures forall i :: 0 <= i < |reqs| && Replay(t, reqs).results[i].Ok? ==>
              |Replay(t, reqs).results[i].value| == IdLength
    decreases |reqs|
  {
    if reqs != [] {
      var o := Upsert(t, reqs[0].candidate, reqs[0].url);
      UpsertIdLength(t, reqs[0].candidate, reqs[0].url);
      assert forall i :: 0 <= i < |reqs[1..]| ==> reqs[1..][i] == reqs[i + 1];
      ReplayIdLength(o.table, reqs[1..]);
      var h := Replay(t, reqs);
      forall i | 0 <= i < |reqs| && h.results[i].Ok?
        ensures |h.results[i].value| == IdLength
      {
        if i > 0 {
          assert h.results[i] == Replay(o.table, reqs[1..]).results[i - 1];
        }
      }
    }
  }
}
