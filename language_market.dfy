/**
 * The country/language expansion of the GeoNames country listing:
 * `get_language_details` and the per-country loop of `fetch_language_market`.
 * Every entry of the listing is a JSON object; each usable one yields one flat
 * record per language code it lists.
 */
module LanguageMarket {
  import opened Python

  /** The language database consulted by alpha-2 code: a partial map from a
      short code to the language's display name. */
  type LanguageTable = map<string, string>

  const UNKNOWN: string := "Unknown"

  /** What `get_language_details` returns: (language_name, iso_code). */
  datatype Details = Details(name: string, isoCode: string)

  /** `code[:2]`: the first two characters, or the whole code when shorter. */
  function Prefix2(code: string): string {
    if |code| <= 2 then code else code[..2]
  }

  /** `get_language_details(code)`: the code is looked up by its first two
      characters only. On success the result is that entry's name and the
      two-character key; on failure it is `("Unknown", code)` with the code
      returned whole, however long it is. */
  function LanguageDetails(table: LanguageTable, code: string): (d: Details)
    ensures d.isoCode <= code
    ensures (d.isoCode in table && d.isoCode == Prefix2(code) && d.name == table[d.isoCode]) <==> Prefix2(code) in table
    ensures Prefix2(code) !in table ==> d == Details(UNKNOWN, code)
  {
    var key := Prefix2(code);
    if key in table then Details(table[key], key) else Details(UNKNOWN, code)
  }

  // ---------------------------------------------------------------------------
  // One country entry
  // ---------------------------------------------------------------------------

  /** The fields of a usable country entry, after stripping and conversion. */
  datatype Country = Country(name: string, capital: string, population: int, languages: string)

  /** What the loop body does with one entry: use it, `continue` past it, or
      catch the exception it raised and move on. */
  datatype EntryOutcome = Keep(country: Country) | Skip | Malformed

  /** `country.get(key, "").strip()`; None when the value is not a string
      and `strip` raises. */
  function StrippedField(o: map<string, Json>, key: string): Option<string> {
    match GetOr(o, key, JStr(""))
    case JStr(s) => Some(Strip(s))
    case _ => None
  }

  /** The body of the `try` for one entry, up to the language list. A value
      that makes `.strip()`, `int()` or `.split()` raise yields Malformed; an
      empty stripped name or a falsy `languages` value yields Skip. */
  function ReadCountry(e: JsonEntry): EntryOutcome {
    match e
    case NotAnObject => Malformed
    case Object(o) =>
      var name := StrippedField(o, "countryName");
      var capital := StrippedField(o, "capital");
      var population := PyInt(GetOr(o, "population", JInt(0)));
      var languages := GetOr(o, "languages", JStr(""));
      if name.None? || capital.None? || population.None? then Malformed
      else if name.value == [] || !Truthy(languages) then Skip
      else if !languages.JStr? then Malformed
      else Keep(Country(name.value, capital.value, population.value, languages.s))
  }

  /** `[lang.strip() for lang in pieces if lang.strip()]`. */
  function StrippedPieces(pieces: seq<string>): seq<string> {
    if pieces == [] then []
    else
      var c := Strip(pieces[0]);
      (if c != [] then [c] else []) + StrippedPieces(pieces[1..])
  }

  /** The language list of a country: the comma-separated pieces of its
      `languages` string, stripped, with the blank ones dropped; `["Unknown"]`
      when none is left. */
  function LanguageList(languages: string): seq<string> {
    var kept := StrippedPieces(Split(languages, ','));
    if kept == [] then [UNKNOWN] else kept
  }

  /** Every code that survives stripping and filtering is non-empty, has no
      whitespace at either end, and holds no character the pieces lacked. */
  lemma {:induction false} StrippedPiecesClean(pieces: seq<string>, ch: char)
    requires forall p :: p in pieces ==> ch !in p
    ensures |StrippedPieces(pieces)| <= |pieces|
    ensures forall c :: c in StrippedPieces(pieces) ==> c != [] && ch !in c && Strip(c) == c
  {
    if pieces != [] {
      StripKeepsAbsent(pieces[0], ch);
      StripIdempotent(pieces[0]);
      StrippedPiecesClean(pieces[1..], ch);
    }
  }

  /** A language list is never empty, and every code in it is non-empty,
      holds no comma and has no whitespace at either end. */
  lemma LanguageListClean(languages: string)
    ensures |LanguageList(languages)| >= 1
    ensures forall c :: c in LanguageList(languages) ==> c != [] && ',' !in c && Strip(c) == c
  {
    var kept := StrippedPieces(Split(languages, ','));
    StrippedPiecesClean(Split(languages, ','), ',');
    if kept == [] {
      UnknownClean();
      assert LanguageList(languages) == [UNKNOWN];
    } else {
      assert LanguageList(languages) == kept;
    }
  }

  /** The fallback code is itself a clean code. */
  lemma UnknownClean()
    ensures UNKNOWN != [] && ',' !in UNKNOWN && Strip(UNKNOWN) == UNKNOWN
  {
    StripTrimmed(UNKNOWN);
  }

  /** The record emitted for one language code of a kept country. */
  datatype LanguageRecord = LanguageRecord(country: string, capital: string, languageCode: string, language: string, population: int)

  function RecordFor(table: LanguageTable, c: Country, code: string): LanguageRecord {
    var d := LanguageDetails(table, code);
    LanguageRecord(c.name, c.capital, d.isoCode, d.name, c.population)
  }

  /** The inner loop over the language list: one record per code, in the
      order of the codes. */
  function RecordsFor(table: LanguageTable, c: Country, codes: seq<string>): seq<LanguageRecord> {
    if codes == [] then []
    else RecordsFor(table, c, codes[..|codes| - 1]) + [RecordFor(table, c, codes[|codes| - 1])]
  }

  lemma RecordsForStep(table: LanguageTable, c: Country, codes: seq<string>, j: nat)
    requires j < |codes|
    ensures RecordsFor(table, c, codes[..j + 1]) == RecordsFor(table, c, codes[..j]) + [RecordFor(table, c, codes[j])]
  {
    assert codes[..j + 1][..j] == codes[..j];
  }

  /** The inner loop emits exactly one record per code, the k-th record
      being built from the k-th code. */
  lemma {:induction false} RecordsForAt(table: LanguageTable, c: Country, codes: seq<string>)
    ensures |RecordsFor(table, c, codes)| == |codes|
    ensures forall k :: 0 <= k < |codes| ==> RecordsFor(table, c, codes)[k] == RecordFor(table, c, codes[k])
  {
    if codes != [] {
      RecordsForAt(table, c, codes[..|codes| - 1]);
    }
  }

  /** The records one entry of the listing contributes. */
  function CountryRecords(table: LanguageTable, e: JsonEntry): seq<LanguageRecord> {
    match ReadCountry(e)
    case Keep(c) => RecordsFor(table, c, LanguageList(c.languages))
    case _ => []
  }

  lemma CountryRecordsOf(table: LanguageTable, e: JsonEntry)
    ensures ReadCountry(e).Keep? ==>
      CountryRecords(table, e) == RecordsFor(table, ReadCountry(e).country, LanguageList(ReadCountry(e).country.languages))
    ensures !ReadCountry(e).Keep? ==> CountryRecords(table, e) == []
  {
  }

  /** The records of a whole listing: each entry's records, entry after entry. */
  function Expand(table: LanguageTable, entries: seq<JsonEntry>): seq<LanguageRecord> {
    FlatMap((e: JsonEntry) => CountryRecords(table, e), entries)
  }

  /** `f(x)` for every `x` of `xs`, concatenated in the order of `xs`. */
  function FlatMap<T, R>(f: T -> seq<R>, xs: seq<T>): seq<R> {
    if xs == [] then [] else FlatMap(f, xs[..|xs| - 1]) + f(xs[|xs| - 1])
  }

  lemma FlatMapStep<T, R>(f: T -> seq<R>, xs: seq<T>, i: nat)
    requires i < |xs|
    ensures FlatMap(f, xs[..i + 1]) == FlatMap(f, xs[..i]) + f(xs[i])
  {
    assert xs[..i + 1][..i] == xs[..i];
  }

  lemma FlatMapSingle<T, R>(f: T -> seq<R>, x: T)
    ensures FlatMap(f, [x]) == f(x)
  {
    assert [x][..0] == [];
  }

  /** Building the list entry by entry: the part for `a + b` is the part for
      `a` followed by the part for `b`. */
  lemma {:induction false} FlatMapAppend<T, R>(f: T -> seq<R>, a: seq<T>, b: seq<T>)
    ensures FlatMap(f, a + b) == FlatMap(f, a) + FlatMap(f, b)
  {
    if b == [] {
      assert a + b == a;
    } else {
      FlatMapAppend(f, a, b[..|b| - 1]);
      assert (a + b)[..|a + b| - 1] == a + b[..|b| - 1];
    }
  }

  // ---------------------------------------------------------------------------
  // The loop
  // ---------------------------------------------------------------------------

  /** `fetch_language_market`, with the HTTP request replaced by its outcome:
      None when the request, the status check or the JSON decoding failed,
      otherwise the `geonames` list (empty when the key is absent). A failed
      request returns `[]` and saves nothing; otherwise the records are built
      entry by entry and saved. */
  method FetchLanguageMarket(table: LanguageTable, response: Option<seq<JsonEntry>>)
    returns (result: seq<LanguageRecord>, saved: bool)
    ensures response.None? ==> result == [] && !saved
    ensures response.Some? ==> result == Expand(table, response.value) && saved
  {
    if response.None? {
      return [], false;
    }
    var data := response.value;
    result := [];
    for i := 0 to |data|
      invariant result == Expand(table, data[..i])
    {
      ExpandStep(table, data, i);
      result := ProcessEntry(table, data[i], result);
    }
    assert data[..|data|] == data;
    saved := true;
  }

  /** The `try` block of the loop for one entry: a kept country appends its
      records; an entry that is skipped or raises appends nothing. */
  method ProcessEntry(table: LanguageTable, entry: JsonEntry, result: seq<LanguageRecord>)
    returns (extended: seq<LanguageRecord>)
    ensures extended == result + CountryRecords(table, entry)
  {
    CountryRecordsOf(table, entry);
    var outcome := ReadCountry(entry);
    if !outcome.Keep? {
      assert result + [] == result;
      return result;
    }
    var country := outcome.country;
    extended := AppendLanguageRecords(table, country, LanguageList(country.languages), result);
  }

  /** The inner loop of `fetch_language_market`: for each code of the
      language list, in order, append the country's record for that code. */
  method AppendLanguageRecords(table: LanguageTable, country: Country, languageList: seq<string>, result: seq<LanguageRecord>)
    returns (extended: seq<LanguageRecord>)
    ensures extended == result + RecordsFor(table, country, languageList)
  {
    extended := result;
    for j := 0 to |languageList|
      invariant extended == result + RecordsFor(table, country, languageList[..j])
    {
      RecordsForStep(table, country, languageList, j);
      var details := LanguageDetails(table, languageList[j]);
      extended := extended + [LanguageRecord(country.name, country.capital, details.isoCode, details.name, country.population)];
    }
    assert languageList[..|languageList|] == languageList;
  }

  // ---------------------------------------------------------------------------
  // Properties
  // ---------------------------------------------------------------------------

  /** A kept entry with k language codes contributes exactly k records, in
      the order of its language list; all of them carry its stripped name,
      its stripped capital and its converted population, and each carries the
      details of its own code. */
  lemma KeptCountryRecords(table: LanguageTable, e: JsonEntry)
    requires ReadCountry(e).Keep?
    ensures var c := ReadCountry(e).country;
            var codes := LanguageList(c.languages);
            var records := CountryRecords(table, e);
            && |records| == |codes|
            && forall k :: 0 <= k < |codes| ==>
                 && records[k].country == c.name && records[k].capital == c.capital
                 && records[k].population == c.population
                 && Details(records[k].language, records[k].languageCode) == LanguageDetails(table, codes[k])
  {
    var c := ReadCountry(e).country;
    RecordsForAt(table, c, LanguageList(c.languages));
  }

  /** An entry whose stripped `countryName` is empty, or whose `languages`
      value is empty or missing, contributes no records. */
  lemma EmptyNameOrLanguagesSkipped(table: LanguageTable, o: map<string, Json>)
    requires StrippedField(o, "countryName") == Some([]) || GetOr(o, "languages", JStr("")) in {JStr([]), JNull}
    ensures CountryRecords(table, Object(o)) == []
  {
  }

  /** An entry that makes the loop body raise (a population `int()` rejects,
      a name or capital that is not a string, an entry that is not an
      object) contributes no records. */
  lemma MalformedEntrySkipped(table: LanguageTable, e: JsonEntry)
    requires e.NotAnObject? || StrippedField(e.fields, "countryName").None? || StrippedField(e.fields, "capital").None?
             || PyInt(GetOr(e.fields, "population", JInt(0))).None?
    ensures CountryRecords(table, e) == []
  {
  }

  /** The listing is processed entry by entry: the records of a concatenated
      listing are the records of the first part followed by those of the
      second. */
  lemma ExpandSingle(table: LanguageTable, e: JsonEntry)
    ensures Expand(table, [e]) == CountryRecords(table, e)
  {
    FlatMapSingle((e: JsonEntry) => CountryRecords(table, e), e);
  }

  lemma ExpandAppend(table: LanguageTable, a: seq<JsonEntry>, b: seq<JsonEntry>)
    ensures Expand(table, a + b) == Expand(table, a) + Expand(table, b)
  {
    FlatMapAppend((e: JsonEntry) => CountryRecords(table, e), a, b);
  }

  /** The records of entry i come after those of every earlier entry and
      before those of every later entry. */
  lemma ExpandAt(table: LanguageTable, entries: seq<JsonEntry>, i: nat)
    requires i < |entries|
    ensures Expand(table, entries)
         == Expand(table, entries[..i]) + CountryRecords(table, entries[i]) + Expand(table, entries[i + 1..])
  {
    assert entries == entries[..i] + [entries[i]] + entries[i + 1..];
    ExpandAppend(table, entries[..i] + [entries[i]], entries[i + 1..]);
    ExpandAppend(table, entries[..i], [entries[i]]);
    ExpandSingle(table, entries[i]);
  }

  lemma ExpandStep(table: LanguageTable, entries: seq<JsonEntry>, i: nat)
    requires i < |entries|
    ensures Expand(table, entries[..i + 1]) == Expand(table, entries[..i]) + CountryRecords(table, entries[i])
  {
    FlatMapStep((e: JsonEntry) => CountryRecords(table, e), entries, i);
  }

  /** An entry that contributes nothing is passed over: the rest of the
      listing yields the same records as if it were absent. */
  lemma SkippedEntryDoesNotAbort(table: LanguageTable, a: seq<JsonEntry>, e: JsonEntry, b: seq<JsonEntry>)
    requires CountryRecords(table, e) == []
    ensures Expand(table, a + [e] + b) == Expand(table, a) + Expand(table, b)
  {
    ExpandAppend(table, a + [e], b);
    ExpandAppend(table, a, [e]);
    ExpandSingle(table, e);
  }

  /** Stripping and filtering piece by piece keeps the order of the pieces. */
  lemma {:induction false} StrippedPiecesAppend(a: seq<string>, b: seq<string>)
    ensures StrippedPieces(a + b) == StrippedPieces(a) + StrippedPieces(b)
  {
    if a == [] {
      assert a + b == b;
    } else {
      var c := Strip(a[0]);
      assert (a + b)[0] == a[0];
      assert (a + b)[1..] == a[1..] + b;
      StrippedPiecesAppend(a[1..], b);
      calc {
        StrippedPieces(a + b);
        (if c != [] then [c] else []) + StrippedPieces(a[1..] + b);
        (if c != [] then [c] else []) + (StrippedPieces(a[1..]) + StrippedPieces(b));
        ((if c != [] then [c] else []) + StrippedPieces(a[1..])) + StrippedPieces(b);
      }
    }
  }

  /** Codes that need no stripping come back exactly, in order. */
  lemma {:induction false} StrippedPiecesOfCodes(codes: seq<string>)
    requires forall c :: c in codes ==> c != [] && Strip(c) == c
    ensures StrippedPieces(codes) == codes
  {
    if codes != [] {
      assert codes[0] in codes;
      assert forall c :: c in codes[1..] ==> c in codes;
      StrippedPiecesOfCodes(codes[1..]);
    }
  }

  /** Round trip: a language string written as comma-separated clean codes
      yields exactly those codes, in order. */
  lemma LanguageListOfJoin(codes: seq<string>)
    requires |codes| >= 1
    requires forall c :: c in codes ==> c != [] && ',' !in c && Strip(c) == c
    ensures LanguageList(Join(codes, ',')) == codes
  {
    SplitJoin(codes, ',');
    StrippedPiecesOfCodes(codes);
  }

  predicate AllPiecesSpace(pieces: seq<string>) {
    forall p :: p in pieces ==> AllSpace(p)
  }

  predicate CommasAndSpaceOnly(s: string) {
    forall i :: 0 <= i < |s| ==> s[i] == ',' || IsSpace(s[i])
  }

  lemma AllPiecesSpaceCons(p: string, rest: seq<string>)
    ensures AllPiecesSpace([p] + rest) <==> AllSpace(p) && AllPiecesSpace(rest)
  {
    assert forall q :: q in [p] + rest <==> q == p || q in rest;
  }

  /** Nothing survives stripping and filtering exactly when every piece is
      whitespace only. */
  lemma {:induction false} StrippedPiecesEmpty(pieces: seq<string>)
    ensures StrippedPieces(pieces) == [] <==> AllPiecesSpace(pieces)
  {
    if pieces != [] {
      var p := pieces[0];
      StrippedPiecesEmpty(pieces[1..]);
      assert Strip(p) == [] <==> AllSpace(p);
      AllPiecesSpaceCons(p, pieces[1..]);
      assert [p] + pieces[1..] == pieces;
    }
  }

  /** Every piece of the comma split is whitespace only exactly when the
      string holds nothing but commas and whitespace. */
  lemma {:induction false} SplitAllSpace(s: string)
    ensures AllPiecesSpace(Split(s, ',')) <==> CommasAndSpaceOnly(s)
  {
    if s != [] {
      var tail := s[1..];
      SplitAllSpace(tail);
      var rest := Split(tail, ',');
      assert CommasAndSpaceOnly(s) <==> (s[0] == ',' || IsSpace(s[0])) && CommasAndSpaceOnly(tail) by {
        assert forall i :: 0 < i < |s| ==> s[i] == tail[i - 1];
      }
      if s[0] == ',' {
        AllPiecesSpaceCons([], rest);
      } else {
        var first := [s[0]] + rest[0];
        assert AllSpace(first) <==> IsSpace(s[0]) && AllSpace(rest[0]) by {
          assert first[0] == s[0];
          assert forall i :: 0 <= i < |rest[0]| ==> first[i + 1] == rest[0][i];
        }
        AllPiecesSpaceCons(first, rest[1..]);
        AllPiecesSpaceCons(rest[0], rest[1..]);
        assert [rest[0]] + rest[1..] == rest;
      }
    }
  }

  /** The fallback `["Unknown"]` is taken exactly when the `languages` string
      holds only commas and whitespace (for example `" "` or `",,"`). */
  lemma LanguageListFallback(languages: string)
    ensures StrippedPieces(Split(languages, ',')) == []
        <==> forall i :: 0 <= i < |languages| ==> languages[i] == ',' || IsSpace(languages[i])
    ensures StrippedPieces(Split(languages, ',')) == [] ==> LanguageList(languages) == [UNKNOWN]
  {
    StrippedPiecesEmpty(Split(languages, ','));
    SplitAllSpace(languages);
    assert CommasAndSpaceOnly(languages) <==> forall i :: 0 <= i < |languages| ==> languages[i] == ',' || IsSpace(languages[i]);
  }
}
