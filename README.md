# film-success-analysis: the record-shaping core in Dafny

This project models the four pieces of record-shaping logic that sit under
the HTTP fetchers, loaders and UI of the film-success-analysis pipeline, and
proves what they promise:

- **Country/language expansion** (`get_language_details` and the loop of
  `fetch_language_market`). Every entry of the GeoNames country listing yields
  one flat record per language code it lists. Entries without a name or
  languages are skipped, and so are entries that raise. The comma-separated
  language string is split, stripped and filtered. Each code is resolved by
  its first two characters, with `("Unknown", code)` as the fallback.
  `api_modules/country_api.py` and `api_modules/ombd_api.py` contain the same
  code; it is modelled once (module `LanguageMarket`) and both files are
  cited.
- **Indicator merge** (`fetch_gdp_population`). The GDP rows and then the
  population rows are folded into a dict keyed by ISO-3 code, and the dict is
  flattened into records (module `WorldBank`).
- **Incremental per-country fetch** (`fetch_latest_value` and `main` of
  `scripts/fetch_gdp_data.py`). This is a first-match scan for the value of
  the year 2023, then an insert-only update of the `world_bank_data` table
  that skips codes already present (module `IncrementalFetch`).
- **Label-threshold selection** (`scripts/train_model.py`). Incomplete rows
  are dropped, and profitability thresholds are tried in order until one
  gives both hits and non-hits. The script fails when none does (module
  `TrainModel`).

Module `Python` states, once, the Python built-ins the scripts rely on:
- `str.strip()` with Python's whitespace set;
- `str.split(",")`;
- `int()` and `float()`, including the inputs on which they raise and the
  narrower whitespace set they skip (three exceptions, the digit limit,
  Unicode digits and float overflow, are listed under "Left out");
- the truncation performed by `int(float)`;
- JSON values as decoded by `json`.

Module `WorldBankApi` holds what the two World Bank scripts share: the two
indicators and the shape of a decoded indicator response.

The imperative parts keep their form:
- `FetchLanguageMarket`, `FetchGdpPopulation`, `ScanLatest`, `FetchGdpData`
  and `SelectThreshold` are methods with the source's loops, `continue`s,
  early returns and `break`.
- The `world_bank_data` table is a class with a map field that only grows
  through `Insert`.
- The World Bank API is a client class that logs each request.

Each method is proved equal to a specification function. The properties are
then proved about those functions and compared with independent reference
definitions. Examples of such references are the value of the last usable row
of a code, the order of first appearance of the codes, and the first
threshold that splits the labels.

Inputs that come from outside become parameters:
- the decoded HTTP responses (`None` for a request that failed);
- the `pycountry` language database, as a map from alpha-2 code to name;
- the list of `pycountry` alpha-3 country codes;
- the rows of `movies.csv`, with `pd.to_datetime`'s month already
  extracted.

Three behaviours of the code are easy to miss, and the model keeps them:
- An unresolved language code is returned whole, however long it is. It is
  not cut to two characters, and it is not replaced by "Unknown".
- `scripts/fetch_gdp_data.py` only inserts rows. It never replaces existing
  ones.
- `fetch_gdp_population` stores the raw values. Nothing converts them or
  checks their sign.

## Model

| member | source | states |
|---|---|---|
| LanguageMarket.LanguageDetails | api_modules/country_api.py:6-17 | the code is resolved by its first two characters: when they are in the language table the result is (that name, those two characters), otherwise ("Unknown", code) with the code untruncated; the returned iso code is always a prefix of the code (same as api_modules/ombd_api.py:6-19) |
| LanguageMarket.FetchLanguageMarket | api_modules/country_api.py:29-70 | a failed request returns [] and saves nothing; otherwise the result is the concatenation, in listing order, of every entry's records, and it is saved (same as api_modules/ombd_api.py:37-80) |
| LanguageMarket.ProcessEntry | api_modules/country_api.py:41-70 | the try block for one entry appends exactly that entry's records, and nothing for a skipped or malformed entry (same as api_modules/ombd_api.py:50-80) |
| LanguageMarket.AppendLanguageRecords | api_modules/country_api.py:56-65 | the inner loop appends one record per code of the language list, in list order (same as api_modules/ombd_api.py:66-75) |
| LanguageMarket.ReadCountry | api_modules/country_api.py:41-49 | the try body up to the language list: a non-object entry, a non-string name or capital, or a population `int()` rejects is Malformed (it raises); an empty stripped name or a falsy languages value is Skip; a truthy non-string languages value is Malformed (`.split` raises); otherwise the stripped name, the stripped capital, the int population and the languages string are kept |
| LanguageMarket.LanguageList | api_modules/country_api.py:52-54 | the comma-split pieces, each stripped, the empty ones dropped, in order; ["Unknown"] when nothing is left |
| LanguageMarket.KeptCountryRecords | api_modules/country_api.py:56-65 | a kept country with k codes contributes exactly k records; the j-th carries the details of the j-th code, and all of them carry the stripped name, the stripped capital and the integer population (same as api_modules/ombd_api.py:66-75) |
| LanguageMarket.EmptyNameOrLanguagesSkipped | api_modules/country_api.py:42-49 | an entry whose stripped name is empty, or whose languages value is empty or missing, contributes no records (same as api_modules/ombd_api.py:51-58) |
| LanguageMarket.MalformedEntrySkipped | api_modules/country_api.py:41-44 | an entry that is not an object, whose name or capital is not a string, or whose population int() rejects, contributes no records (same as api_modules/ombd_api.py:50-53) |
| LanguageMarket.SkippedEntryDoesNotAbort | api_modules/country_api.py:67-70 | an entry that contributes nothing leaves the records of the entries around it exactly as if it were absent, so processing goes on (same as api_modules/ombd_api.py:77-80) |
| LanguageMarket.ExpandAt | api_modules/country_api.py:40-59 | entry i's records come after those of all earlier entries and before those of all later ones (same as api_modules/ombd_api.py:49-69) |
| LanguageMarket.ExpandAppend | api_modules/country_api.py:40-59 | the records of a concatenated listing are those of its first part followed by those of its second |
| LanguageMarket.ExpandSingle | api_modules/country_api.py:40-70 | a one-entry listing yields exactly that entry's records |
| LanguageMarket.LanguageListClean | api_modules/country_api.py:52-54 | the language list is never empty, and each code in it is non-empty, has no comma, and is unchanged by strip (same as api_modules/ombd_api.py:61-63) |
| LanguageMarket.StrippedPiecesClean | api_modules/country_api.py:52 | the stripped, filtered pieces are at most as many as the pieces, and each is non-empty, stripped, and holds no character the pieces lacked |
| LanguageMarket.LanguageListFallback | api_modules/country_api.py:52-54 | the list falls back to ["Unknown"] exactly when the languages string holds only commas and whitespace, such as " " or ",," (same as api_modules/ombd_api.py:61-63) |
| LanguageMarket.LanguageListOfJoin | api_modules/country_api.py:52 | round trip: a languages string made of clean codes joined by commas yields exactly those codes, in order |
| LanguageMarket.StrippedPiecesAppend | api_modules/country_api.py:52 | stripping and filtering work piece by piece and keep the order of the pieces |
| LanguageMarket.StrippedPiecesOfCodes | api_modules/country_api.py:52 | pieces that are already clean codes come back unchanged |
| LanguageMarket.StrippedPiecesEmpty | api_modules/country_api.py:52-53 | nothing survives the filter exactly when every piece is whitespace only |
| LanguageMarket.SplitAllSpace | api_modules/country_api.py:52 | every comma-split piece is whitespace only exactly when the string has only commas and whitespace |
| LanguageMarket.RecordsForAt | api_modules/country_api.py:56-65 | the inner loop's records correspond one to one, in order, with the codes |
| LanguageMarket.FlatMapAppend | api_modules/country_api.py:40 | building the output entry by entry distributes over concatenation of the listing |
| Python.Strip | api_modules/country_api.py:42-43 | `str.strip()`: the factor left after removing the leading and the trailing characters for which `isspace()` holds, the ASCII separators \x1c-\x1f and the Unicode spaces included (also the `lang.strip()` of line 52) |
| Python.StripSpec | api_modules/country_api.py:42-43 | strip gives the empty string exactly when the input is all whitespace, and otherwise a string with no whitespace at either end |
| Python.StripIsFactor | api_modules/country_api.py:42-43 | strip removes exactly the leading and the trailing whitespace and keeps the factor in between |
| Python.StripTrimmed | api_modules/country_api.py:52 | a string with no whitespace at either end is its own strip |
| Python.StripIdempotent | api_modules/country_api.py:52 | stripping a stripped string changes nothing, so every code the comprehension keeps is its own strip |
| Python.StripKeepsAbsent | api_modules/country_api.py:52 | strip never introduces a character |
| Python.LeadingSpace | api_modules/country_api.py:42 | counts the whitespace prefix: all of it is whitespace and the next character is not |
| Python.TrailingSpace | api_modules/country_api.py:42 | counts the whitespace suffix: all of it is whitespace and the character before it is not |
| Python.Split | api_modules/country_api.py:52 | split yields at least one piece, and no piece contains the separator |
| Python.JoinSplit | api_modules/country_api.py:52 | joining the pieces of a split with the separator gives back the string |
| Python.SplitJoin | api_modules/country_api.py:52 | splitting a join of separator-free pieces gives back the pieces |
| Python.SplitAfterPiece | api_modules/country_api.py:52 | a separator-free piece, a separator, then a rest splits into the piece followed by the rest's pieces |
| Python.SplitSingle | api_modules/country_api.py:52 | a string without the separator splits into itself alone |
| Python.ParseInt | api_modules/country_api.py:44 | `int()` of a string: numeral whitespace (Python's whitespace without \x1c-\x1f) is skipped at both ends, then an optional sign and one or more ASCII digits; anything else raises (None) |
| Python.PyInt | scripts/fetch_gdp_data.py:46 | `int()` of a decoded JSON value: a bool gives 0 or 1, an int itself, a float its truncation, a string its ParseInt; null and containers raise (None) |
| Python.ParseDecimal | scripts/fetch_gdp_data.py:47 | `float()` of a string: numeral whitespace skipped at both ends, an optional sign, digits with at most one point and at least one digit; anything else raises (None) |
| Python.PyFloat | scripts/fetch_gdp_data.py:47 | `float()` of a decoded JSON value: a bool gives 0.0 or 1.0, a number its value, a string its ParseDecimal; null and containers raise (None) |
| Python.SeparatorNotSkipped | scripts/fetch_gdp_data.py:46 | `int()` skips fewer characters than `strip()` removes: `"\x1c5".strip()` is "5", yet `int("\x1c5")` raises, while `int(" 5")` is 5 |
| Python.ParseFormatInt | api_modules/country_api.py:44 | int() of the decimal numeral of any integer gives that integer back (in the model, which has no digit limit; CPython's `int()` raises past 4300 digits, see `Python.ParseInt` under Left out) |
| Python.DigitsValueFormat | api_modules/country_api.py:44 | the digit string of a natural number has that number as its value |
| Python.NumeralTrimmed | api_modules/country_api.py:44 | a decimal numeral has no whitespace at either end |
| Python.ParseDecimalFormatInt | scripts/fetch_gdp_data.py:47 | float() of the decimal numeral of any integer gives that number back |
| Python.UnsignedDigits | scripts/fetch_gdp_data.py:47 | a string of digits without a point parses to its digit value |
| Python.DotIndex | scripts/fetch_gdp_data.py:47 | the split point of a decimal is the first '.' when there is one, else the end |
| Python.Trunc | scripts/fetch_gdp_data.py:91 | int() of a float truncates toward zero: floor for non-negative values, ceiling for negative ones |
| WorldBank.FetchGdpPopulation | api_modules/world_bank_api.py:44-76 | the merge loop over the two indicators and the flattening loop compute exactly the flattening of the merged dict, whose key list and map agree |
| WorldBank.FetchGdpPopulationSpec | api_modules/world_bank_api.py:44-76 | the records' codes are the usable codes of the GDP rows then the population rows, in order of first appearance; each record's gdp and population_gdp are the values of the last usable row for its code in each response, or None when that response has none |
| WorldBank.CodesUnique | api_modules/world_bank_api.py:63-64 | no ISO code appears in two records |
| WorldBank.CodePresentIffUsable | api_modules/world_bank_api.py:60-64 | a code gets a record exactly when a row of either response has that non-empty code and a non-null value, zero included |
| WorldBank.LastValueNone | api_modules/world_bank_api.py:62-65 | a field is None exactly when its response has no usable row for the code, so a missing field is never 0 |
| WorldBank.GdpSkipped | api_modules/world_bank_api.py:49-56 | a failed or row-less GDP response skips GDP only: the population response is still merged and every gdp is None |
| WorldBank.PopulationSkipped | api_modules/world_bank_api.py:49-56 | a failed or row-less population response skips population only: the GDP response is still merged and every population_gdp is None |
| WorldBank.Store | api_modules/world_bank_api.py:63-65 | one assignment `data[code][key] = value`: the code is appended to the key order when it is new, and only that indicator's field of that code is set |
| WorldBank.MergeRows | api_modules/world_bank_api.py:59-65 | the rows of one indicator in order, a row stored exactly when its code is truthy and its value is not None |
| WorldBank.MergeRowsSpec | api_modules/world_bank_api.py:59-65 | one indicator's rows add the unseen usable codes in order, make each code's field the value of its last usable row (later rows overwrite), and leave the other indicator's fields alone |
| WorldBank.MergeIndicatorSpec | api_modules/world_bank_api.py:49-65 | the same for one indicator response, a skipped response contributing nothing |
| WorldBank.StoreSpec | api_modules/world_bank_api.py:63-65 | `data.setdefault(code, {})[key] = value` adds the code once and sets only that field |
| WorldBank.Merged | api_modules/world_bank_api.py:44-65 | the merged dict's key order and its map always agree |
| WorldBank.MergedWellFormed | api_modules/world_bank_api.py:47-65 | after any number of indicators the key order and the map agree |
| WorldBank.FlattenCodesAt | api_modules/world_bank_api.py:68-74 | flattening gives one record per key, in key order, with that key's fields |
| WorldBank.AppendNewSpec | api_modules/world_bank_api.py:63-64 | adding codes in order keeps the known ones, adds exactly the unseen ones and introduces no repeat |
| WorldBank.AppendNewAppend | api_modules/world_bank_api.py:47-64 | adding two runs of codes one after the other is adding their concatenation |
| IncrementalFetch.ScanEntry | scripts/fetch_gdp_data.py:46-47 | one step of the scan: a non-object entry or a missing value raises; a null value passes the entry over; a missing or unconvertible date raises; another year passes over; an unconvertible value raises; otherwise the float of the value is found |
| IncrementalFetch.LatestValue | scripts/fetch_gdp_data.py:35-51 | a failed request or a payload with fewer than two elements or no rows gives None; otherwise the scan's value, None when the scan finds nothing or raises |
| IncrementalFetch.ScanLatest | scripts/fetch_gdp_data.py:45-48 | the scanning loop with early return computes exactly the first-decisive-entry scan |
| IncrementalFetch.WorldBankClient.FetchLatestValue | scripts/fetch_gdp_data.py:30-51 | one request is logged; a failed request or a payload with fewer than two elements or no rows gives None, otherwise the scan's value, None when it finds nothing or raises |
| IncrementalFetch.ScanEntryFound | scripts/fetch_gdp_data.py:46-47 | an entry is taken exactly when its value is not null, int(date) is 2023 and float(value) succeeds, the result being that float |
| IncrementalFetch.ScanFirstDecides | scripts/fetch_gdp_data.py:45-47 | the first entry that is not passed over decides the scan, and later entries are not looked at |
| IncrementalFetch.ScanNotFound | scripts/fetch_gdp_data.py:45-48 | the scan finds nothing exactly when every entry is passed over |
| IncrementalFetch.LatestValueFirstMatch | scripts/fetch_gdp_data.py:45-47 | the lookup returns the value of the first matching entry when all earlier entries are passed over |
| IncrementalFetch.LatestValueRaised | scripts/fetch_gdp_data.py:35-51 | an exception (e.g. a non-numeric date) before any match makes the lookup None, whatever follows |
| IncrementalFetch.LatestValueSome | scripts/fetch_gdp_data.py:41-48 | a value comes only from a response with at least two elements holding an entry of 2023 with that value |
| IncrementalFetch.ScanFoundAt | scripts/fetch_gdp_data.py:45-47 | a found value is the value of some entry of the list |
| IncrementalFetch.TruncOpt | scripts/fetch_gdp_data.py:91 | `int(pop) if pop is not None else None`: None stays None, a value is truncated toward zero |
| IncrementalFetch.NewRows | scripts/fetch_gdp_data.py:75-95 | the entries `cached` receives: for each country in order that is absent at start, its two lookups when at least one found a value |
| IncrementalFetch.FetchCountry | scripts/fetch_gdp_data.py:80-95 | for an absent code: GDP then population are requested; when either found a value the row (GDP, truncated population) is inserted under the code and the entry is returned, otherwise the table is unchanged and nothing is returned |
| IncrementalFetch.FetchGdpData | scripts/fetch_gdp_data.py:69-102 | the loop returns as `cached` the new-row function of the codes present at start; the table becomes the old table with exactly those rows inserted; the requests made are GDP then population for each code not present at start; the cache is written exactly when `cached` is non-empty |
| IncrementalFetch.WorldBankTable.Insert | scripts/fetch_gdp_data.py:88-92 | an INSERT adds one row under a new primary key and changes nothing else |
| IncrementalFetch.NewRowsSpec | scripts/fetch_gdp_data.py:75-95 | a code gets a cached entry exactly when it is a country, absent from the table at start, and one of its lookups found a value; the entry holds both lookups |
| IncrementalFetch.NewRowsUnique | scripts/fetch_gdp_data.py:75-95 | distinct country codes give distinct cached codes |
| IncrementalFetch.LookupsSpec | scripts/fetch_gdp_data.py:69-83 | no lookup is made for a code present at start, and every other country is looked up for both indicators |
| IncrementalFetch.InsertAllKeys | scripts/fetch_gdp_data.py:88-92 | the table's keys after the run are the old keys plus the cached codes |
| IncrementalFetch.InsertAllKeeps | scripts/fetch_gdp_data.py:88-92 | inserting new codes never changes or removes an existing row |
| IncrementalFetch.InsertAllStores | scripts/fetch_gdp_data.py:88-95 | every cached entry is stored with its GDP and its population truncated |
| IncrementalFetch.RunKeepsRows | scripts/fetch_gdp_data.py:69-92 | after a run every row present at start is still there, unchanged: the table only grows |
| IncrementalFetch.RunAddsRows | scripts/fetch_gdp_data.py:77-92 | a run adds a row exactly for each absent country with a GDP or a population value |
| IncrementalFetch.RunStoresLookups | scripts/fetch_gdp_data.py:81-91 | each added row holds the GDP lookup and the truncated population lookup, a missing one as NULL |
| TrainModel.SelectThreshold | scripts/train_model.py:19-35 | the loop succeeds exactly when some threshold splits the labels, and then stops at the first such threshold with that threshold's labels |
| TrainModel.Train | scripts/train_model.py:13-40 | the `sys.exit(1)` of line 35 is reached exactly when no threshold of 2.0, 1.5, 1.0, 0.8 gives both classes on the complete rows; otherwise the feature names are ["budget", "release_month"], the threshold is the first splitting one, the labels are those at that threshold, and each feature pair is the budget and month of the corresponding movie |
| TrainModel.DropIncomplete | scripts/train_model.py:16 | the rows that have budget, release month and revenue, in order |
| TrainModel.IsHit | scripts/train_model.py:23 | a movie is a hit at threshold t when its revenue is strictly greater than t times its budget |
| TrainModel.FirstSplitting | scripts/train_model.py:19-29 | the thresholds tried in the order 2.0, 1.5, 1.0, 0.8; the index of the first whose labels hold both classes, or none |
| TrainModel.FirstSplittingSpec | scripts/train_model.py:22-29 | the search returns the first threshold whose labels hold both classes, none being skipped, and nothing exactly when no threshold does |
| TrainModel.Labels | scripts/train_model.py:23 | one label per movie |
| TrainModel.DropIncompleteSpec | scripts/train_model.py:16 | a row survives exactly when it has budget, release month and revenue, keeping its values |
| TrainModel.DropIncompleteAppend | scripts/train_model.py:16 | the filter keeps the order of the rows |
| TrainModel.FewMoviesFail | scripts/train_model.py:26-35 | with fewer than two complete rows (zero included) no threshold gives two classes, so training fails |
| TrainModel.ConstantRatioFails | scripts/train_model.py:23-35 | movies with positive budgets sharing one revenue-to-budget ratio give one class at every threshold, so training fails (without positive budgets the claim is false: budget 1 with revenue 3 and budget -1 with revenue -3 split at 2.0) |
| TrainModel.HitByRatio | scripts/train_model.py:23 | with a positive budget, hit at t is exactly ratio > t, strictly |
| TrainModel.HitMonotone | scripts/train_model.py:23 | with a non-negative budget, a hit at t stays a hit at any lower threshold |
| TrainModel.LowestThresholdChosen | scripts/train_model.py:19-29 | when no movie earns more than its non-negative budget and the labels at 0.8 are mixed, 0.8 is the chosen threshold |

## Left out

- HTTP requests, status checks, timeouts, the relaxed-TLS adapter, `time.sleep`, prints, `os.makedirs` and the CSV and joblib writes. Each response is a parameter (`None` when the request or its decoding failed); the cache write is the `wroteCache` result, and the save of the language CSV is the `saved` result.
- The `pycountry` databases: the language database is a map from code to name that stands for `pycountry.languages.get`'s case-insensitive index, so every case variant of an alpha-2 code ("en", "EN", "En") maps to its name, and `pycountry.countries` is the list of alpha-3 codes, which are distinct.
- IncrementalFetch.FetchGdpData: requires distinct country codes. A repeated code would be fetched again and its second INSERT would fail on the primary key.
- IncrementalFetch.WorldBankTable.Insert: `population_gdp` is an unbounded integer. The `sqlite3` module binds a Python int only within the signed 64-bit range, so an `int(pop)` outside it (a population of 1e19, say) makes the INSERT raise `OverflowError`. The model stores the row instead.
- IncrementalFetch.FetchGdpData: does not model the abort that such an `OverflowError` causes. It is raised outside any `try`, so `main` stops at that country, the rows committed before it stay, and no cache file is written. The model inserts the row and goes on to the next country.
- The SQLite connection, commits and the `CREATE TABLE IF NOT EXISTS`: the table is a map from `iso_code` to its row.
- Python floats are exact reals: rounding, NaN and infinities are not modelled, and the thresholds 1.5 and 0.8 are taken as exact ratios. `float(str)` accepts a sign, digits and an optional fraction. Exponents, `inf`, `nan` and underscores are not modelled. `int(str)` accepts a sign and ASCII digits, surrounded by the whitespace `int()` skips (Python's whitespace without \x1c-\x1f, which `strip()` does remove). Underscores and non-ASCII digits are not modelled.
- Python.ParseInt: has no digit limit. CPython 3.11 and later (and the 3.7-3.10 security releases) make `int(str)` raise ValueError for a numeral of more than 4300 digits, the default of `sys.set_int_max_str_digits`. The model reads such a numeral. So a 4301-digit `date` before the 2023 row makes `fetch_latest_value` return None in the source but that row's value in the model. A 4301-digit GeoNames `population` makes the source skip the entry, while the model keeps it. The limit depends on the interpreter's version and settings, which the model does not take as a parameter.
- Python.ParseDecimal: accepts ASCII digits only. `float(str)` also accepts Unicode decimal digits (`float("٥")` is 5.0), so a World Bank value `"٥"` of 2023 gives 5.0 in the source and None in the model.
- Python.PyFloat: gives a value for every int. `float(i)` raises OverflowError for an int beyond the double range, for example a JSON value of 10^400. `fetch_latest_value` then returns None, while the model returns that value. This follows from modelling floats as exact reals.
- World Bank rows are typed: `countryiso3code` is a string or absent, and `value` is a number or absent. `fetch_gdp_population` passes other shapes through unchanged. A non-zero number or `true` as a code is truthy and becomes a key (`0` and `false` are falsy and skipped by `if code`), and a non-numeric value is stored and returned as it is. An empty list or dict code is falsy and skipped by `if code`. A non-empty list or dict code raises at `code not in data` (it cannot be a dict key), but only when the row's value is not null, because the `and` at `api_modules/world_bank_api.py:62` short-circuits before line 63. A row that is not an object raises at `.get`. Both raise outside any `try`. None of these shapes can occur in the model.
- `geonames` is taken to be a list of entries (an absent key gives `[]`). A string or an object there is iterated too. Each element then fails `.get` inside the per-entry `try` and is skipped, so the run yields no records. A null, a number or a boolean makes the `for` at `api_modules/country_api.py:40` raise, outside any `try`. The model does not represent these values.
- A second payload element (`json_data[1]`, `data[1]`) that is truthy but not a list. The payload rows are a sequence in the model. In `fetch_gdp_population` such a value raises outside any `try`, at the `for` or at `.get` on its elements. In `fetch_latest_value` it raises inside the `try`, so the lookup is None.
- A World Bank response whose top level is not a JSON array. The `Payload` datatype cannot express it. In `fetch_gdp_population`, `len(json_data)` raises TypeError for null, a number or a boolean, and `json_data[1]` raises KeyError for an object with two or more keys. Both are outside any `try` (`api_modules/world_bank_api.py:52-55`), so the function aborts instead of skipping that indicator.
- `fetch_gdp_population`'s `res.json()` raising on a body that is not JSON: it is outside the `try`, so the function aborts. The model only covers a failed request (`None`) and decoded payloads.
- `pd.to_datetime(..., errors='coerce').dt.month`: the release month is given, or None when it does not parse.
- The train/test split, `StandardScaler`, `LogisticRegression.fit` and `joblib.dump`. The model stops at the features, labels and feature names that the fit and the artifact receive.
- The failures after a threshold is chosen: the script can still exit with an error and no artifact. With two complete rows, one hit and one non-hit, `train_test_split(test_size=0.2)` leaves a single training row, and `LogisticRegression.fit` raises on a single class. The model's `Trained` outcome only says what the fit receives, not that it succeeds.
- LanguageMarket.LanguageDetails: the `try`/`except` around the `pycountry` lookup is not modelled. A map lookup cannot raise, and an exception there would lead to the same fallback `("Unknown", code)`.
