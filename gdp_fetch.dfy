/**
 * The incremental per-country fetch: for every country code not yet in the
 * `world_bank_data` table, look up the GDP and population of the configured
 * year, insert a row when at least one of them was found, and remember the
 * inserted rows for a cache file.
 */
module IncrementalFetch {
  import opened Python
  import opened WorldBankApi

  /** The year whose values are fetched. */
  const YEAR: int := 2023

  /** The outcome of scanning one entry, or a whole list of entries: a
      value, nothing yet, or an exception (which the caller turns into
      None). */
  datatype Scan = Found(value: real) | NotFound | Raised

  /** One step of the scan over `data[1]`: `entry["value"]` and
      `entry["date"]` raise when the entry is not a dict or lacks the key;
      a null value passes the entry over without looking at its date;
      `int(date)` and `float(value)` raise when they cannot convert. */
  function ScanEntry(entry: JsonEntry): Scan {
    if entry.NotAnObject? || "value" !in entry.fields then Raised
    else if entry.fields["value"] == JNull then NotFound
    else if "date" !in entry.fields || PyInt(entry.fields["date"]).None? then Raised
    else if PyInt(entry.fields["date"]).value != YEAR then NotFound
    else if PyFloat(entry.fields["value"]).None? then Raised
    else Found(PyFloat(entry.fields["value"]).value)
  }

  /** The scan over the entries: the first entry that does not pass decides. */
  function ScanRows(rows: seq<JsonEntry>): Scan {
    if rows == [] then NotFound
    else if ScanEntry(rows[0]).NotFound? then ScanRows(rows[1..])
    else ScanEntry(rows[0])
  }

  /** What `fetch_latest_value` returns for one response (None when the
      request failed or the body was not usable JSON). */
  function LatestValue(response: Option<Payload<JsonEntry>>): Option<real> {
    if response.None? || NoRows(response.value) then None
    else
      match ScanRows(response.value.rows)
      case Found(v) => Some(v)
      case _ => None
  }

  /** The loop of `fetch_latest_value`, returning at the first entry of the
      year with a value. */
  method ScanLatest(rows: seq<JsonEntry>) returns (s: Scan)
    ensures s == ScanRows(rows)
  {
    var i := 0;
    while i < |rows|
      invariant 0 <= i <= |rows|
      invariant ScanRows(rows[i..]) == ScanRows(rows)
    {
      assert rows[i..][1..] == rows[i + 1..];
      var entry := rows[i];
      if entry.NotAnObject? || "value" !in entry.fields {
        return Raised;
      }
      var value := entry.fields["value"];
      if value != JNull {
        if "date" !in entry.fields {
          return Raised;
        }
        var date := PyInt(entry.fields["date"]);
        if date.None? {
          return Raised;
        }
        if date.value == YEAR {
          var v := PyFloat(value);
          if v.None? {
            return Raised;
          }
          return Found(v.value);
        }
      }
      i := i + 1;
    }
    return NotFound;
  }

  /** The World Bank API as seen by the script: a fixed response for every
      (indicator, code) request, and the log of the requests made. */
  class WorldBankClient {
    const responses: (Indicator, string) -> Option<Payload<JsonEntry>>
    var requests: seq<(Indicator, string)>

    constructor (responses: (Indicator, string) -> Option<Payload<JsonEntry>>)
      ensures this.responses == responses && requests == []
    {
      this.responses := responses;
      requests := [];
    }

    /** `fetch_latest_value(api_url, code)`: one request, then the scan. */
    method FetchLatestValue(indicator: Indicator, code: string) returns (v: Option<real>)
      modifies this
      ensures requests == old(requests) + [(indicator, code)]
      ensures v == LatestValue(responses(indicator, code))
    {
      requests := requests + [(indicator, code)];
      var data := responses(indicator, code);
      if data.None? || data.value.length < 2 || data.value.rows == [] {
        return None;
      }
      var s := ScanLatest(data.value.rows);
      v := if s.Found? then Some(s.value) else None;
    }
  }

  /** A row of `world_bank_data`: `gdp REAL`, `population_gdp INTEGER`,
      either of them NULL. */
  datatype StoredRow = StoredRow(gdp: Option<real>, population: Option<int>)

  /** The table, keyed by its primary key `iso_code`. */
  class WorldBankTable {
    var rows: map<string, StoredRow>

    constructor (rows: map<string, StoredRow>)
      ensures this.rows == rows
    {
      this.rows := rows;
    }

    /** `INSERT INTO world_bank_data`: the key must be new (the primary key
        refuses a second row for it). */
    method Insert(code: string, row: StoredRow)
      requires code !in rows
      modifies this
      ensures rows == old(rows)[code := row]
    {
      rows := rows[code := row];
    }
  }

  /** An entry of `cached`: the fetched values, population not yet
      truncated. */
  datatype CachedRow = CachedRow(isoCode: string, gdp: Option<real>, population: Option<real>)

  /** `int(pop) if pop is not None else None`. */
  function TruncOpt(x: Option<real>): (n: Option<int>)
    ensures n.Some? <==> x.Some?
    ensures x.Some? ==> (0.0 <= x.value ==> n.value as real <= x.value < (n.value + 1) as real)
    ensures x.Some? ==> (x.value < 0.0 ==> (n.value - 1) as real < x.value <= n.value as real)
  {
    if x.Some? then Some(Trunc(x.value)) else None
  }

  /** The table row written for a cached entry. */
  function Stored(row: CachedRow): StoredRow {
    StoredRow(row.gdp, TruncOpt(row.population))
  }

  // ---------------------------------------------------------------------------
  // The run as functions
  // ---------------------------------------------------------------------------

  /** The entries `cached` receives for `countries`, given the codes in the
      table at start. */
  function NewRows(existing: set<string>, countries: seq<string>,
                   responses: (Indicator, string) -> Option<Payload<JsonEntry>>): seq<CachedRow>
  {
    if countries == [] then []
    else
      var prior := NewRows(existing, countries[..|countries| - 1], responses);
      var code := countries[|countries| - 1];
      if code in existing then prior
      else
        var gdp := LatestValue(responses(Gdp, code));
        var pop := LatestValue(responses(Population, code));
        if gdp.Some? || pop.Some? then prior + [CachedRow(code, gdp, pop)] else prior
  }

  /** The table after inserting the cached entries in order. */
  function InsertAll(rows: map<string, StoredRow>, cached: seq<CachedRow>): map<string, StoredRow> {
    if cached == [] then rows
    else
      var last := cached[|cached| - 1];
      InsertAll(rows, cached[..|cached| - 1])[last.isoCode := Stored(last)]
  }

  /** The requests made for `countries`: GDP then population for every code
      not in the table at start. */
  function Lookups(existing: set<string>, countries: seq<string>): seq<(Indicator, string)> {
    if countries == [] then []
    else
      var code := countries[|countries| - 1];
      Lookups(existing, countries[..|countries| - 1])
        + (if code in existing then [] else [(Gdp, code), (Population, code)])
  }

  // ---------------------------------------------------------------------------
  // The procedure
  // ---------------------------------------------------------------------------

  /** The body of `main`'s loop for a code not in the table at start: both
      lookups, then the INSERT when either found a value. */
  method FetchCountry(table: WorldBankTable, client: WorldBankClient, code: string)
    returns (row: Option<CachedRow>)
    requires code !in table.rows
    modifies table, client
    ensures client.requests == old(client.requests) + [(Gdp, code), (Population, code)]
    ensures var gdp := LatestValue(client.responses(Gdp, code));
            var pop := LatestValue(client.responses(Population, code));
            row == if gdp.Some? || pop.Some? then Some(CachedRow(code, gdp, pop)) else None
    ensures table.rows == if row.Some? then old(table.rows)[code := Stored(row.value)] else old(table.rows)
  {
    var gdp := client.FetchLatestValue(Gdp, code);
    var pop := client.FetchLatestValue(Population, code);
    if gdp.Some? || pop.Some? {
      table.Insert(code, StoredRow(gdp, if pop.Some? then Some(Trunc(pop.value)) else None));
      row := Some(CachedRow(code, gdp, pop));
    } else {
      row := None;
    }
  }

  /** The loop of `main` over `countries` (the `alpha_3` codes, which are
      distinct), returning `cached` and whether the cache file is written. */
  method FetchGdpData(table: WorldBankTable, client: WorldBankClient, countries: seq<string>)
    returns (cached: seq<CachedRow>, wroteCache: bool)
    requires Distinct(countries)
    modifies table, client
    ensures cached == NewRows(old(table.rows).Keys, countries, client.responses)
    ensures table.rows == InsertAll(old(table.rows), cached)
    ensures client.requests == old(client.requests) + Lookups(old(table.rows).Keys, countries)
    ensures wroteCache <==> cached != []
  {
    var existing := table.rows.Keys;
    cached := [];
    for k := 0 to |countries|
      invariant cached == NewRows(existing, countries[..k], client.responses)
      invariant table.rows == InsertAll(old(table.rows), cached)
      invariant client.requests == old(client.requests) + Lookups(existing, countries[..k])
      invariant forall c :: c in table.rows ==> c in existing || c in countries[..k]
    {
      assert countries[..k + 1][..k] == countries[..k];
      var code := countries[k];
      if code in existing {
        assert Lookups(existing, countries[..k + 1]) == Lookups(existing, countries[..k]) + [];
        continue;
      }
      assert code !in countries[..k];
      ghost var issued := client.requests;
      ghost var prior := cached;
      var row := FetchCountry(table, client, code);
      assert Lookups(existing, countries[..k + 1]) == Lookups(existing, countries[..k]) + [(Gdp, code), (Population, code)];
      assert old(client.requests) + Lookups(existing, countries[..k + 1])
          == (old(client.requests) + Lookups(existing, countries[..k])) + [(Gdp, code), (Population, code)];
      if row.Some? {
        cached := cached + [row.value];
        assert cached[..|cached| - 1] == prior;
      }
    }
    assert countries[..|countries|] == countries;
    wroteCache := cached != [];
  }

  // ---------------------------------------------------------------------------
  // Properties of the scan
  // ---------------------------------------------------------------------------

  /** An entry is taken exactly when its value is not null, its date
      converts to YEAR and its value converts to a float. */
  lemma ScanEntryFound(entry: JsonEntry, v: real)
    ensures ScanEntry(entry) == Found(v) <==>
              && entry.Object?
              && "value" in entry.fields && entry.fields["value"] != JNull
              && "date" in entry.fields && PyInt(entry.fields["date"]) == Some(YEAR)
              && PyFloat(entry.fields["value"]) == Some(v)
  {
  }

  /** The first entry that is not passed over decides the scan; entries
      after it are never looked at. */
  lemma {:induction false} ScanFirstDecides(rows: seq<JsonEntry>, i: nat)
    requires i < |rows|
    requires forall j :: 0 <= j < i ==> ScanEntry(rows[j]) == NotFound
    requires ScanEntry(rows[i]) != NotFound
    ensures ScanRows(rows) == ScanEntry(rows[i])
  {
    if i > 0 {
      ScanFirstDecides(rows[1..], i - 1);
    }
  }

  /** The scan finds nothing exactly when every entry is passed over. */
  lemma {:induction false} ScanNotFound(rows: seq<JsonEntry>)
    ensures ScanRows(rows) == NotFound <==> forall j :: 0 <= j < |rows| ==> ScanEntry(rows[j]) == NotFound
  {
    if rows != [] {
      ScanNotFound(rows[1..]);
      if ScanEntry(rows[0]).NotFound? {
        assert forall j :: 1 <= j < |rows| ==> rows[j] == rows[1..][j - 1];
      }
    }
  }

  /** `fetch_latest_value` returns the value of the first entry of the year
      with a value, when every entry before it is passed over. */
  lemma LatestValueFirstMatch(response: Option<Payload<JsonEntry>>, i: nat, v: real)
    requires response.Some? && !NoRows(response.value) && i < |response.value.rows|
    requires forall j :: 0 <= j < i ==> ScanEntry(response.value.rows[j]) == NotFound
    requires ScanEntry(response.value.rows[i]) == Found(v)
    ensures LatestValue(response) == Some(v)
  {
    ScanFirstDecides(response.value.rows, i);
  }

  /** An exception before any match makes the whole lookup None, whatever
      follows. */
  lemma LatestValueRaised(response: Option<Payload<JsonEntry>>, i: nat)
    requires response.Some? && !NoRows(response.value) && i < |response.value.rows|
    requires forall j :: 0 <= j < i ==> ScanEntry(response.value.rows[j]) == NotFound
    requires ScanEntry(response.value.rows[i]) == Raised
    ensures LatestValue(response) == None
  {
    ScanFirstDecides(response.value.rows, i);
  }

  /** A lookup yields a value only from a usable response with an entry of
      the year; a failed request, a short or empty payload, or a payload
      without such an entry yields None. */
  lemma LatestValueSome(response: Option<Payload<JsonEntry>>, v: real)
    ensures LatestValue(response) == Some(v) ==>
              && response.Some? && response.value.length >= 2
              && exists i :: 0 <= i < |response.value.rows| && ScanEntry(response.value.rows[i]) == Found(v)
  {
    if LatestValue(response) == Some(v) {
      ScanFoundAt(response.value.rows, v);
    }
  }

  lemma {:induction false} ScanFoundAt(rows: seq<JsonEntry>, v: real)
    requires ScanRows(rows) == Found(v)
    ensures exists i :: 0 <= i < |rows| && ScanEntry(rows[i]) == Found(v)
  {
    if !ScanEntry(rows[0]).NotFound? {
      assert ScanEntry(rows[0]) == Found(v);
    } else {
      ScanFoundAt(rows[1..], v);
      var i :| 0 <= i < |rows[1..]| && ScanEntry(rows[1..][i]) == Found(v);
      assert rows[1..][i] == rows[i + 1];
    }
  }

  // ---------------------------------------------------------------------------
  // Properties of a run
  // ---------------------------------------------------------------------------

  /** The codes of the cached entries, in order. */
  function Codes(cached: seq<CachedRow>): seq<string> {
    seq(|cached|, i requires 0 <= i < |cached| => cached[i].isoCode)
  }

  /** The codes of the cached entries. */
  function CodeSet(cached: seq<CachedRow>): set<string> {
    set r | r in cached :: r.isoCode
  }

  /** A code gets a cached entry (and a row) exactly when it is one of the
      countries, was not in the table at start, and at least one of its two
      lookups found a value; the entry carries the two lookups. */
  lemma {:induction false} NewRowsSpec(existing: set<string>, countries: seq<string>,
                                       responses: (Indicator, string) -> Option<Payload<JsonEntry>>)
    ensures forall r :: r in NewRows(existing, countries, responses) <==>
              && r.isoCode in countries && r.isoCode !in existing
              && r.gdp == LatestValue(responses(Gdp, r.isoCode))
              && r.population == LatestValue(responses(Population, r.isoCode))
              && (r.gdp.Some? || r.population.Some?)
  {
    if countries != [] {
      var init := countries[..|countries| - 1];
      NewRowsSpec(existing, init, responses);
      assert countries == init + [countries[|countries| - 1]];
    }
  }

  /** Distinct countries give distinct cached codes. */
  lemma {:induction false} NewRowsUnique(existing: set<string>, countries: seq<string>,
                                         responses: (Indicator, string) -> Option<Payload<JsonEntry>>)
    requires Distinct(countries)
    ensures Distinct(Codes(NewRows(existing, countries, responses)))
  {
    if countries != [] {
      var init := countries[..|countries| - 1];
      var code := countries[|countries| - 1];
      var prior := NewRows(existing, init, responses);
      NewRowsUnique(existing, init, responses);
      NewRowsSpec(existing, init, responses);
      forall i | 0 <= i < |prior| ensures prior[i].isoCode != code {
        assert prior[i] in prior;
      }
      var result := NewRows(existing, countries, responses);
      forall i, j | 0 <= i < j < |result| ensures Codes(result)[i] != Codes(result)[j] {
        assert Codes(prior)[i] == result[i].isoCode;
        if j < |prior| {
          assert Codes(prior)[j] == result[j].isoCode;
        }
      }
    }
  }

  /** Inserting adds exactly the cached codes to the keys. */
  lemma {:induction false} InsertAllKeys(rows: map<string, StoredRow>, cached: seq<CachedRow>)
    ensures InsertAll(rows, cached).Keys == rows.Keys + CodeSet(cached)
  {
    if cached != [] {
      var init := cached[..|cached| - 1];
      InsertAllKeys(rows, init);
      assert cached == init + [cached[|cached| - 1]];
      assert CodeSet(cached) == CodeSet(init) + {cached[|cached| - 1].isoCode};
    }
  }

  /** Inserting new codes never changes or removes a row that was there. */
  lemma {:induction false} InsertAllKeeps(rows: map<string, StoredRow>, cached: seq<CachedRow>)
    requires forall r :: r in cached ==> r.isoCode !in rows
    ensures forall c :: c in rows ==> c in InsertAll(rows, cached) && InsertAll(rows, cached)[c] == rows[c]
  {
    if cached != [] {
      var init := cached[..|cached| - 1];
      assert forall r :: r in init ==> r in cached;
      InsertAllKeeps(rows, init);
    }
  }

  /** With distinct codes, every cached entry ends up stored, its population
      truncated. */
  lemma {:induction false} InsertAllStores(rows: map<string, StoredRow>, cached: seq<CachedRow>)
    requires Distinct(Codes(cached))
    ensures forall r :: r in cached ==> r.isoCode in InsertAll(rows, cached) && InsertAll(rows, cached)[r.isoCode] == Stored(r)
  {
    if cached != [] {
      var init := cached[..|cached| - 1];
      var last := cached[|cached| - 1];
      assert Codes(init) == Codes(cached)[..|cached| - 1];
      InsertAllStores(rows, init);
      forall r | r in cached
        ensures r.isoCode in InsertAll(rows, cached) && InsertAll(rows, cached)[r.isoCode] == Stored(r)
      {
        if r != last {
          var i :| 0 <= i < |cached| && cached[i] == r;
          assert i < |cached| - 1 && r in init;
          assert Codes(cached)[i] != Codes(cached)[|cached| - 1];
        }
      }
    }
  }

  /** A run never changes or removes a row that was in the table at start. */
  lemma RunKeepsRows(rows: map<string, StoredRow>, countries: seq<string>,
                     responses: (Indicator, string) -> Option<Payload<JsonEntry>>)
    ensures var after := InsertAll(rows, NewRows(rows.Keys, countries, responses));
            forall c :: c in rows ==> c in after && after[c] == rows[c]
  {
    NewRowsSpec(rows.Keys, countries, responses);
    InsertAllKeeps(rows, NewRows(rows.Keys, countries, responses));
  }

  /** A run adds a row exactly for the countries that were absent and had a
      GDP or a population value. */
  lemma RunAddsRows(rows: map<string, StoredRow>, countries: seq<string>,
                    responses: (Indicator, string) -> Option<Payload<JsonEntry>>, c: string)
    ensures var after := InsertAll(rows, NewRows(rows.Keys, countries, responses));
            c in after && c !in rows <==>
              && c in countries && c !in rows
              && (LatestValue(responses(Gdp, c)).Some? || LatestValue(responses(Population, c)).Some?)
  {
    var cached := NewRows(rows.Keys, countries, responses);
    NewRowsSpec(rows.Keys, countries, responses);
    InsertAllKeys(rows, cached);
    if c in countries && c !in rows
       && (LatestValue(responses(Gdp, c)).Some? || LatestValue(responses(Population, c)).Some?) {
      assert CachedRow(c, LatestValue(responses(Gdp, c)), LatestValue(responses(Population, c))) in cached;
    }
  }

  /** Each row a run adds holds the GDP and the truncated population of its
      lookups. */
  lemma RunStoresLookups(rows: map<string, StoredRow>, countries: seq<string>,
                         responses: (Indicator, string) -> Option<Payload<JsonEntry>>, c: string)
    requires Distinct(countries)
    ensures var after := InsertAll(rows, NewRows(rows.Keys, countries, responses));
            c in after && c !in rows ==>
              after[c] == StoredRow(LatestValue(responses(Gdp, c)), TruncOpt(LatestValue(responses(Population, c))))
  {
    var cached := NewRows(rows.Keys, countries, responses);
    NewRowsSpec(rows.Keys, countries, responses);
    NewRowsUnique(rows.Keys, countries, responses);
    InsertAllKeys(rows, cached);
    InsertAllStores(rows, cached);
  }

  /** Codes in the table at start are never looked up, and every other
      country is looked up for both indicators. */
  lemma {:induction false} LookupsSpec(existing: set<string>, countries: seq<string>)
    ensures forall r :: r in Lookups(existing, countries) <==> r.1 in countries && r.1 !in existing
  {
    if countries != [] {
      var init := countries[..|countries| - 1];
      var code := countries[|countries| - 1];
      LookupsSpec(existing, init);
      assert countries == init + [code];
      forall r: (Indicator, string)
        ensures r in [(Gdp, code), (Population, code)] <==> r.1 == code
      {
        if r.0 == Gdp {
          assert r == (Gdp, r.1);
        } else {
          assert r == (Population, r.1);
        }
      }
    }
  }
}
