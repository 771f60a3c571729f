/**
 * The indicator merge of `fetch_gdp_population`: two World Bank indicator
 * responses (GDP first, then population) are folded into a dict keyed by
 * ISO-3 code, whose fields fill in independently, and the dict is then
 * flattened into one record per code, in the order the codes were first seen.
 */
module WorldBank {
  import opened Python
  import opened WorldBankApi

  /** The indicators in the order of the `indicators` dict. */
  const INDICATORS: seq<Indicator> := [Gdp, Population]

  /** One row of an indicator response: `entry.get("countryiso3code")` and
      `entry.get("value")`, None when the key is missing or null. */
  datatype Entry = Entry(code: Option<string>, value: Option<real>)

  /** `code and value is not None`: a non-empty code and any value, zero
      included. */
  predicate Usable(e: Entry) {
    e.code.Some? && e.code.value != [] && e.value.Some?
  }

  /** The inner dict of one code: the value of each indicator, if any. */
  datatype Fields = Fields(gdp: Option<real>, population: Option<real>)

  /** The `data` dict: its keys in insertion order, and the entries. */
  datatype Data = Data(codes: seq<string>, fields: map<string, Fields>)

  const EMPTY: Data := Data([], map[])

  /** The keys in order are exactly the keys of the map. */
  ghost predicate WellFormed(d: Data) {
    forall c :: c in d.fields <==> c in d.codes
  }

  /** One flattened record: `{"iso_code", "gdp", "population_gdp"}`. */
  datatype EconomicRecord = EconomicRecord(isoCode: string, gdp: Option<real>, populationGdp: Option<real>)

  // ---------------------------------------------------------------------------
  // The merge as functions
  // ---------------------------------------------------------------------------

  /** `data.setdefault(code, {})[key] = value`. */
  function Store(d: Data, key: Indicator, code: string, value: real): Data {
    var prior := if code in d.fields then d.fields[code] else Fields(None, None);
    var updated := if key == Gdp then prior.(gdp := Some(value)) else prior.(population := Some(value));
    Data(if code in d.fields then d.codes else d.codes + [code], d.fields[code := updated])
  }

  /** The inner loop over the rows of one indicator. */
  function MergeRows(d: Data, key: Indicator, rows: seq<Entry>): Data {
    if rows == [] then d
    else
      var d' := MergeRows(d, key, rows[..|rows| - 1]);
      var e := rows[|rows| - 1];
      if Usable(e) then Store(d', key, e.code.value, e.value.value) else d'
  }

  /** One indicator: a failed request or a response without rows leaves the
      dict as it is. */
  function MergeIndicator(d: Data, key: Indicator, response: Option<Payload<Entry>>): Data {
    if response.None? || NoRows(response.value) then d else MergeRows(d, key, response.value.rows)
  }

  /** The dict after the first `k` indicators. */
  function MergedThrough(responses: Indicator -> Option<Payload<Entry>>, k: nat): Data
    requires k <= |INDICATORS|
  {
    if k == 0 then EMPTY
    else MergeIndicator(MergedThrough(responses, k - 1), INDICATORS[k - 1], responses(INDICATORS[k - 1]))
  }

  /** The dict once both indicators are merged; its key list and its map
      always agree. */
  function Merged(responses: Indicator -> Option<Payload<Entry>>): (d: Data)
    ensures WellFormed(d)
  {
    MergedWellFormed(responses, |INDICATORS|);
    MergedThrough(responses, |INDICATORS|)
  }

  /** The final loop: one record per key, in key order; a missing field stays
      None. */
  function FlattenCodes(codes: seq<string>, fields: map<string, Fields>): seq<EconomicRecord>
    requires forall c :: c in codes ==> c in fields
  {
    if codes == [] then []
    else
      var c := codes[|codes| - 1];
      FlattenCodes(codes[..|codes| - 1], fields) + [EconomicRecord(c, fields[c].gdp, fields[c].population)]
  }

  // ---------------------------------------------------------------------------
  // The procedure
  // ---------------------------------------------------------------------------

  /** `fetch_gdp_population`, with each indicator's HTTP request replaced by
      its outcome (None when the request failed). */
  method FetchGdpPopulation(responses: Indicator -> Option<Payload<Entry>>) returns (enriched: seq<EconomicRecord>)
    ensures var d := Merged(responses);
            enriched == FlattenCodes(d.codes, d.fields)
  {
    var codes: seq<string> := [];
    var data: map<string, Fields> := map[];
    for k := 0 to |INDICATORS|
      invariant Data(codes, data) == MergedThrough(responses, k)
    {
      var key := INDICATORS[k];
      var res := responses(key);
      if res.None? {
        continue;
      }
      var jsonData := res.value;
      if jsonData.length < 2 || jsonData.rows == [] {
        continue;
      }
      ghost var start := Data(codes, data);
      for j := 0 to |jsonData.rows|
        invariant Data(codes, data) == MergeRows(start, key, jsonData.rows[..j])
      {
        assert jsonData.rows[..j + 1][..j] == jsonData.rows[..j];
        var entry := jsonData.rows[j];
        if entry.code.Some? && entry.code.value != [] && entry.value.Some? {
          var code := entry.code.value;
          if code !in data {
            data := data[code := Fields(None, None)];
            codes := codes + [code];
          }
          data := data[code := if key == Gdp then data[code].(gdp := entry.value) else data[code].(population := entry.value)];
        }
      }
      assert jsonData.rows[..|jsonData.rows|] == jsonData.rows;
    }
    assert Data(codes, data) == Merged(responses);
    enriched := [];
    for k := 0 to |codes|
      invariant enriched == FlattenCodes(codes[..k], data)
    {
      assert codes[..k + 1][..k] == codes[..k];
      var code := codes[k];
      enriched := enriched + [EconomicRecord(code, data[code].gdp, data[code].population)];
    }
    assert codes[..|codes|] == codes;
  }

  // ---------------------------------------------------------------------------
  // Reference definitions
  // ---------------------------------------------------------------------------

  /** The rows of an indicator that the merge looks at: none when the
      request failed or the response has no rows. */
  function RowsOf(response: Option<Payload<Entry>>): seq<Entry> {
    if response.None? || NoRows(response.value) then [] else response.value.rows
  }

  /** The codes of the usable rows, in row order, repeats included. */
  function UsableCodes(rows: seq<Entry>): seq<string> {
    if rows == [] then []
    else
      var e := rows[|rows| - 1];
      UsableCodes(rows[..|rows| - 1]) + (if Usable(e) then [e.code.value] else [])
  }

  /** The value of the last usable row for `code`, if any. */
  function LastValue(rows: seq<Entry>, code: string): Option<real> {
    if rows == [] then None
    else
      var e := rows[|rows| - 1];
      if Usable(e) && e.code.value == code then e.value else LastValue(rows[..|rows| - 1], code)
  }

  /** `known` followed by the elements of `s` not seen before, each once, in
      order of first appearance. */
  function AppendNew(known: seq<string>, s: seq<string>): seq<string> {
    if s == [] then known
    else
      var prefix := AppendNew(known, s[..|s| - 1]);
      if s[|s| - 1] in prefix then prefix else prefix + [s[|s| - 1]]
  }

  /** The elements of `s` in order of first appearance, without repeats. */
  function FirstOccurrences(s: seq<string>): seq<string> {
    AppendNew([], s)
  }

  /** The value an indicator contributes to a code in a dict (None when the
      code is absent). */
  function Field(d: Data, key: Indicator, code: string): Option<real> {
    if code !in d.fields then None
    else if key == Gdp then d.fields[code].gdp
    else d.fields[code].population
  }

  // ---------------------------------------------------------------------------
  // Properties
  // ---------------------------------------------------------------------------

  /** AppendNew keeps `known`, adds exactly the unseen elements of `s`, and
      introduces no repeats. */
  lemma {:induction false} AppendNewSpec(known: seq<string>, s: seq<string>)
    ensures known <= AppendNew(known, s)
    ensures forall c :: c in AppendNew(known, s) <==> c in known || c in s
    ensures Distinct(known) ==> Distinct(AppendNew(known, s))
  {
    if s != [] {
      AppendNewSpec(known, s[..|s| - 1]);
      assert forall c :: c in s <==> c in s[..|s| - 1] || c == s[|s| - 1] by {
        assert s == s[..|s| - 1] + [s[|s| - 1]];
      }
    }
  }

  lemma {:induction false} AppendNewAppend(known: seq<string>, a: seq<string>, b: seq<string>)
    ensures AppendNew(known, a + b) == AppendNew(AppendNew(known, a), b)
  {
    if b == [] {
      assert a + b == a;
    } else {
      AppendNewAppend(known, a, b[..|b| - 1]);
      assert (a + b)[..|a + b| - 1] == a + b[..|b| - 1];
    }
  }

  /** One store: the code is added to the keys if it is new, its field for
      `key` becomes `value`, and nothing else changes. */
  lemma StoreSpec(d: Data, key: Indicator, code: string, value: real)
    requires WellFormed(d)
    ensures WellFormed(Store(d, key, code, value))
    ensures Store(d, key, code, value).codes == AppendNew(d.codes, [code])
    ensures forall c :: Field(Store(d, key, code, value), key, c) == if c == code then Some(value) else Field(d, key, c)
    ensures forall other, c :: other != key ==> Field(Store(d, key, code, value), other, c) == Field(d, other, c)
  {
    assert [code][..0] == [];
  }

  /** The effect of one indicator's rows on the dict: its keys gain the
      unseen usable codes in order, the merged indicator's field of every
      code becomes the value of its last usable row (if it has one), and the
      other indicator's fields do not change. */
  lemma {:induction false} MergeRowsSpec(d: Data, key: Indicator, rows: seq<Entry>)
    requires WellFormed(d)
    ensures WellFormed(MergeRows(d, key, rows))
    ensures MergeRows(d, key, rows).codes == AppendNew(d.codes, UsableCodes(rows))
    ensures forall c :: Field(MergeRows(d, key, rows), key, c)
                     == if LastValue(rows, c).Some? then LastValue(rows, c) else Field(d, key, c)
    ensures forall other, c :: other != key ==> Field(MergeRows(d, key, rows), other, c) == Field(d, other, c)
  {
    if rows != [] {
      var init := rows[..|rows| - 1];
      var e := rows[|rows| - 1];
      MergeRowsSpec(d, key, init);
      var d' := MergeRows(d, key, init);
      if Usable(e) {
        var c := e.code.value;
        assert MergeRows(d, key, rows) == Store(d', key, c, e.value.value);
        StoreSpec(d', key, c, e.value.value);
        assert UsableCodes(rows) == UsableCodes(init) + [c];
        AppendNewAppend(d.codes, UsableCodes(init), [c]);
      } else {
        assert MergeRows(d, key, rows) == d';
        assert UsableCodes(rows) == UsableCodes(init) + [];
        assert UsableCodes(init) + [] == UsableCodes(init);
      }
    }
  }

  lemma MergeIndicatorSpec(d: Data, key: Indicator, response: Option<Payload<Entry>>)
    requires WellFormed(d)
    ensures WellFormed(MergeIndicator(d, key, response))
    ensures MergeIndicator(d, key, response).codes == AppendNew(d.codes, UsableCodes(RowsOf(response)))
    ensures forall c :: Field(MergeIndicator(d, key, response), key, c)
                     == if LastValue(RowsOf(response), c).Some? then LastValue(RowsOf(response), c) else Field(d, key, c)
    ensures forall other, c :: other != key ==> Field(MergeIndicator(d, key, response), other, c) == Field(d, other, c)
  {
    MergeRowsSpec(d, key, RowsOf(response));
  }

  lemma {:induction false} MergedWellFormed(responses: Indicator -> Option<Payload<Entry>>, k: nat)
    requires k <= |INDICATORS|
    ensures WellFormed(MergedThrough(responses, k))
  {
    if k > 0 {
      MergedWellFormed(responses, k - 1);
      MergeIndicatorSpec(MergedThrough(responses, k - 1), INDICATORS[k - 1], responses(INDICATORS[k - 1]));
    }
  }

  /** Flattening gives one record per key, in key order, carrying that key's
      fields. */
  lemma {:induction false} FlattenCodesAt(codes: seq<string>, fields: map<string, Fields>)
    requires forall c :: c in codes ==> c in fields
    ensures |FlattenCodes(codes, fields)| == |codes|
    ensures forall k :: 0 <= k < |codes| ==>
              FlattenCodes(codes, fields)[k] == EconomicRecord(codes[k], fields[codes[k]].gdp, fields[codes[k]].population)
  {
    if codes != [] {
      FlattenCodesAt(codes[..|codes| - 1], fields);
    }
  }

  /** The result of `fetch_gdp_population`, stated against the responses
      alone: the records' codes are the usable codes of the GDP rows followed
      by those of the population rows, in order of first appearance, each
      once; and each record's `gdp` and `population_gdp` are the values of the
      last usable row for its code in the respective response, or None when
      that response has no usable row for it (never 0). */
  lemma FetchGdpPopulationSpec(responses: Indicator -> Option<Payload<Entry>>)
    ensures var d := Merged(responses);
            var out := FlattenCodes(d.codes, d.fields);
            var gdpRows := RowsOf(responses(Gdp));
            var populationRows := RowsOf(responses(Population));
            && |out| == |FirstOccurrences(UsableCodes(gdpRows) + UsableCodes(populationRows))|
            && (forall k :: 0 <= k < |out| ==>
                  && out[k].isoCode == FirstOccurrences(UsableCodes(gdpRows) + UsableCodes(populationRows))[k]
                  && out[k].gdp == LastValue(gdpRows, out[k].isoCode)
                  && out[k].populationGdp == LastValue(populationRows, out[k].isoCode))
  {
    var gdpRows := RowsOf(responses(Gdp));
    var populationRows := RowsOf(responses(Population));
    var d0 := MergedThrough(responses, 0);
    var d1 := MergedThrough(responses, 1);
    var d2 := Merged(responses);
    assert d0 == EMPTY;
    MergeIndicatorSpec(d0, Gdp, responses(Gdp));
    MergeIndicatorSpec(d1, Population, responses(Population));
    AppendNewAppend([], UsableCodes(gdpRows), UsableCodes(populationRows));
    FlattenCodesAt(d2.codes, d2.fields);
    forall c | c in d2.fields
      ensures d2.fields[c].gdp == LastValue(gdpRows, c)
      ensures d2.fields[c].population == LastValue(populationRows, c)
    {
      assert Field(d2, Gdp, c) == d2.fields[c].gdp;
      assert Field(d2, Population, c) == d2.fields[c].population;
      assert Field(d0, Gdp, c) == None && Field(d0, Population, c) == None;
      assert Field(d1, Population, c) == None;
    }
  }

  /** No code appears in two records. */
  lemma CodesUnique(responses: Indicator -> Option<Payload<Entry>>)
    ensures var d := Merged(responses);
            var out := FlattenCodes(d.codes, d.fields);
            forall i, j :: 0 <= i < j < |out| ==> out[i].isoCode != out[j].isoCode
  {
    var gdpRows := RowsOf(responses(Gdp));
    var populationRows := RowsOf(responses(Population));
    FetchGdpPopulationSpec(responses);
    AppendNewSpec([], UsableCodes(gdpRows) + UsableCodes(populationRows));
  }

  /** A code gets a record exactly when some usable row of either response
      carries it. */
  lemma CodePresentIffUsable(responses: Indicator -> Option<Payload<Entry>>, code: string)
    ensures var d := Merged(responses);
            var out := FlattenCodes(d.codes, d.fields);
            (exists k :: 0 <= k < |out| && out[k].isoCode == code)
              <==> code in UsableCodes(RowsOf(responses(Gdp))) || code in UsableCodes(RowsOf(responses(Population)))
  {
    var d := Merged(responses);
    var out := FlattenCodes(d.codes, d.fields);
    var all := UsableCodes(RowsOf(responses(Gdp))) + UsableCodes(RowsOf(responses(Population)));
    FetchGdpPopulationSpec(responses);
    AppendNewSpec([], all);
    if code in FirstOccurrences(all) {
      var k :| 0 <= k < |FirstOccurrences(all)| && FirstOccurrences(all)[k] == code;
      assert out[k].isoCode == code;
    }
  }

  /** A failed or empty GDP response skips that indicator only: the records
      are those of the population response, each without a GDP value. */
  lemma GdpSkipped(responses: Indicator -> Option<Payload<Entry>>)
    requires responses(Gdp).None? || NoRows(responses(Gdp).value)
    ensures var d := Merged(responses);
            var out := FlattenCodes(d.codes, d.fields);
            var populationRows := RowsOf(responses(Population));
            && |out| == |FirstOccurrences(UsableCodes(populationRows))|
            && forall k :: 0 <= k < |out| ==>
                 && out[k].isoCode == FirstOccurrences(UsableCodes(populationRows))[k]
                 && out[k].gdp.None?
                 && out[k].populationGdp == LastValue(populationRows, out[k].isoCode)
  {
    FetchGdpPopulationSpec(responses);
    assert UsableCodes(RowsOf(responses(Gdp))) + UsableCodes(RowsOf(responses(Population)))
        == UsableCodes(RowsOf(responses(Population)));
  }

  /** A failed or empty population response skips that indicator only: the
      records are those of the GDP response, each without a population. */
  lemma PopulationSkipped(responses: Indicator -> Option<Payload<Entry>>)
    requires responses(Population).None? || NoRows(responses(Population).value)
    ensures var d := Merged(responses);
            var out := FlattenCodes(d.codes, d.fields);
            var gdpRows := RowsOf(responses(Gdp));
            && |out| == |FirstOccurrences(UsableCodes(gdpRows))|
            && forall k :: 0 <= k < |out| ==>
                 && out[k].isoCode == FirstOccurrences(UsableCodes(gdpRows))[k]
                 && out[k].gdp == LastValue(gdpRows, out[k].isoCode)
                 && out[k].populationGdp.None?
  {
    FetchGdpPopulationSpec(responses);
    assert UsableCodes(RowsOf(responses(Gdp))) + UsableCodes(RowsOf(responses(Population)))
        == UsableCodes(RowsOf(responses(Gdp)));
  }

  /** A code has no value from a response exactly when that response has no
      usable row for it. */
  lemma {:induction false} LastValueNone(rows: seq<Entry>, code: string)
    ensures LastValue(rows, code).None? <==> code !in UsableCodes(rows)
  {
    if rows != [] {
      LastValueNone(rows[..|rows| - 1], code);
    }
  }
}
