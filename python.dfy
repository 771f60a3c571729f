/**
 * The Python built-ins the ingestion scripts lean on, stated once so that the
 * other modules can use them: optional values (`None`), decoded JSON values,
 * `str.strip()`, `str.split(sep)`, and the conversions `int(...)` and
 * `float(...)` together with the error case in which each of them raises.
 */
module Python {

  datatype Option<+T> = None | Some(value: T)

  /** No element of `s` occurs twice. */
  predicate Distinct<T(==)>(s: seq<T>) {
    forall i, j :: 0 <= i < j < |s| ==> s[i] != s[j]
  }

  // ---------------------------------------------------------------------------
  // Whitespace and str.strip()
  // ---------------------------------------------------------------------------

  /** `c.isspace()`: the ASCII controls \t..\r and \x1c..\x1f, the space, and
      the Unicode space separators Python counts as whitespace. */
  predicate IsSpace(c: char) {
    || c == ' '
    || ('\t' <= c <= '\r')
    || ('\U{1c}' <= c <= '\U{1f}')
    || c == '\U{85}' || c == '\U{a0}' || c == '\U{1680}'
    || ('\U{2000}' <= c <= '\U{200a}')
    || c == '\U{2028}' || c == '\U{2029}' || c == '\U{202f}' || c == '\U{205f}' || c == '\U{3000}'
  }

  /** The number of whitespace characters at the front of `s`. */
  function LeadingSpace(s: string): (n: nat)
    ensures n <= |s|
    ensures forall i :: 0 <= i < n ==> IsSpace(s[i])
    ensures n == |s| || !IsSpace(s[n])
  {
    if s != [] && IsSpace(s[0]) then 1 + LeadingSpace(s[1..]) else 0
  }

  /** The number of whitespace characters at the end of `s`. */
  function TrailingSpace(s: string): (n: nat)
    ensures n <= |s|
    ensures forall i :: |s| - n <= i < |s| ==> IsSpace(s[i])
    ensures n == |s| || !IsSpace(s[|s| - n - 1])
  {
    if s != [] && IsSpace(s[|s| - 1]) then 1 + TrailingSpace(s[..|s| - 1]) else 0
  }

  /** `s.strip()`: the factor of `s` left after removing whitespace at both
      ends. */
  function Strip(s: string): string {
    var t := s[LeadingSpace(s)..];
    t[..|t| - TrailingSpace(t)]
  }

  /** Every character of `s` is whitespace (the empty string included). */
  predicate AllSpace(s: string) {
    forall i :: 0 <= i < |s| ==> IsSpace(s[i])
  }

  /** The strip of `s` is empty exactly when `s` is all whitespace, and
      otherwise it starts and ends with a non-space character. */
  lemma StripSpec(s: string)
    ensures Strip(s) == [] <==> AllSpace(s)
    ensures Strip(s) == [] || (!IsSpace(Strip(s)[0]) && !IsSpace(Strip(s)[|Strip(s)| - 1]))
  {
    var k := LeadingSpace(s);
    var t := s[k..];
    var r := Strip(s);
    if r != [] {
      assert r[0] == s[k];
      assert r[|r| - 1] == t[|t| - TrailingSpace(t) - 1];
    }
  }

  /** What `strip()` removes is exactly the leading and the trailing
      whitespace: the result is the factor of `s` that starts after the
      leading whitespace, and everything after it is whitespace. */
  lemma StripIsFactor(s: string)
    ensures LeadingSpace(s) + |Strip(s)| <= |s|
    ensures Strip(s) == s[LeadingSpace(s)..LeadingSpace(s) + |Strip(s)|]
    ensures forall i :: LeadingSpace(s) + |Strip(s)| <= i < |s| ==> IsSpace(s[i])
  {
    var k := LeadingSpace(s);
    var t := s[k..];
    var n := |t| - TrailingSpace(t);
    assert Strip(s) == t[..n];
    assert t[..n] == s[k..k + n];
    forall i | k + n <= i < |s| ensures IsSpace(s[i]) {
      assert |t| - TrailingSpace(t) <= i - k < |t|;
      assert IsSpace(t[i - k]);
      assert s[i] == t[i - k];
    }
  }

  /** A string with no whitespace at either end is its own strip. */
  lemma StripTrimmed(s: string)
    requires s == [] || (!IsSpace(s[0]) && !IsSpace(s[|s| - 1]))
    ensures Strip(s) == s
  {
    if s != [] {
      assert LeadingSpace(s) == 0;
      assert TrailingSpace(s) == 0;
    }
  }

  /** Stripping never introduces a character. */
  lemma StripKeepsAbsent(s: string, ch: char)
    requires ch !in s
    ensures ch !in Strip(s)
  {
    var r := Strip(s);
    var k := LeadingSpace(s);
    StripIsFactor(s);
    forall i | 0 <= i < |r| ensures r[i] != ch {
      assert r[i] == s[k + i];
    }
  }

  /** `strip()` is idempotent. */
  lemma StripIdempotent(s: string)
    ensures Strip(Strip(s)) == Strip(s)
  {
    StripTrimmed(Strip(s));
  }

  // ---------------------------------------------------------------------------
  // str.split(sep) and sep.join(parts)
  // ---------------------------------------------------------------------------

  /** `s.split(sep)` for a one-character separator: the pieces between
      separators, empty pieces included; `"".split(",")` is `[""]`. */
  function Split(s: string, sep: char): (parts: seq<string>)
    ensures |parts| >= 1
    ensures forall p :: p in parts ==> sep !in p
  {
    if s == [] then [[]]
    else
      var rest := Split(s[1..], sep);
      if s[0] == sep then [[]] + rest
      else [[s[0]] + rest[0]] + rest[1..]
  }

  /** `sep.join(parts)`. */
  function Join(parts: seq<string>, sep: char): string {
    if |parts| == 0 then []
    else if |parts| == 1 then parts[0]
    else parts[0] + [sep] + Join(parts[1..], sep)
  }

  /** Joining the pieces of a split with the same separator gives back the
      original string: splitting loses nothing. */
  lemma {:induction false} JoinSplit(s: string, sep: char)
    ensures Join(Split(s, sep), sep) == s
  {
    if s != [] {
      var rest := Split(s[1..], sep);
      JoinSplit(s[1..], sep);
      if s[0] == sep {
        assert Split(s, sep) == [[]] + rest;
        assert ([[]] + rest)[1..] == rest;
      } else {
        var parts := [[s[0]] + rest[0]] + rest[1..];
        if |rest| == 1 {
          assert Join(parts, sep) == [s[0]] + rest[0];
        } else {
          assert parts[1..] == rest[1..];
          assert Join(rest, sep) == rest[0] + [sep] + Join(rest[1..], sep);
        }
      }
    }
  }

  /** Splitting `p + [sep] + rest`, where `p` holds no separator, yields `p`
      followed by the pieces of `rest`. */
  lemma {:induction false} SplitAfterPiece(p: string, sep: char, rest: string)
    requires sep !in p
    ensures Split(p + [sep] + rest, sep) == [p] + Split(rest, sep)
  {
    if p == [] {
      assert ([] + [sep] + rest)[1..] == rest;
    } else {
      var s := p + [sep] + rest;
      assert s[1..] == p[1..] + [sep] + rest;
      SplitAfterPiece(p[1..], sep, rest);
      assert [p[0]] + p[1..] == p;
    }
  }

  /** A string without the separator splits into itself alone. */
  lemma {:induction false} SplitSingle(p: string, sep: char)
    requires sep !in p
    ensures Split(p, sep) == [p]
  {
    if p != [] {
      SplitSingle(p[1..], sep);
      assert [p[0]] + p[1..] == p;
    }
  }

  /** Splitting a join of separator-free pieces recovers the pieces. */
  lemma {:induction false} SplitJoin(parts: seq<string>, sep: char)
    requires |parts| >= 1
    requires forall p :: p in parts ==> sep !in p
    ensures Split(Join(parts, sep), sep) == parts
  {
    if |parts| == 1 {
      SplitSingle(parts[0], sep);
    } else {
      SplitJoin(parts[1..], sep);
      SplitAfterPiece(parts[0], sep, Join(parts[1..], sep));
    }
  }

  // ---------------------------------------------------------------------------
  // Decimal numerals: int(s) and float(s) on strings
  // ---------------------------------------------------------------------------

  /** The whitespace `int()` and `float()` skip around a numeral: Python's
      whitespace without the ASCII separators \x1c..\x1f. The conversions
      keep those (and then reject the string) although `str.strip()` removes
      them. */
  predicate NumeralSpace(c: char) {
    IsSpace(c) && !('\U{1c}' <= c <= '\U{1f}')
  }

  /** The number of numeral whitespace characters at the front of `s`. */
  function LeadingNumeralSpace(s: string): (n: nat)
    ensures n <= |s|
    ensures forall i :: 0 <= i < n ==> NumeralSpace(s[i])
    ensures n == |s| || !NumeralSpace(s[n])
  {
    if s != [] && NumeralSpace(s[0]) then 1 + LeadingNumeralSpace(s[1..]) else 0
  }

  /** The number of numeral whitespace characters at the end of `s`. */
  function TrailingNumeralSpace(s: string): (n: nat)
    ensures n <= |s|
    ensures forall i :: |s| - n <= i < |s| ==> NumeralSpace(s[i])
    ensures n == |s| || !NumeralSpace(s[|s| - n - 1])
  {
    if s != [] && NumeralSpace(s[|s| - 1]) then 1 + TrailingNumeralSpace(s[..|s| - 1]) else 0
  }

  /** The text `int()` and `float()` convert: `s` without the numeral
      whitespace at both ends. */
  function TrimNumeral(s: string): string {
    var t := s[LeadingNumeralSpace(s)..];
    t[..|t| - TrailingNumeralSpace(t)]
  }

  predicate IsDigit(c: char) { '0' <= c <= '9' }

  predicate AllDigits(d: string) { forall i :: 0 <= i < |d| ==> IsDigit(d[i]) }

  /** The value of a string of decimal digits, most significant first. */
  function DigitsValue(d: string): nat
    requires AllDigits(d)
  {
    if d == [] then 0 else DigitsValue(d[..|d| - 1]) * 10 + ((d[|d| - 1] as int) - ('0' as int))
  }

  /** `int(s)`: optional surrounding whitespace, an optional `+` or `-`, then
      one or more decimal digits; any other string makes `int` raise (None). */
  function ParseInt(s: string): Option<int> {
    var t := TrimNumeral(s);
    if t != [] && (t[0] == '+' || t[0] == '-') then
      var d := t[1..];
      var v: int := if d != [] && AllDigits(d) then DigitsValue(d) else 0;
      if d != [] && AllDigits(d) then Some(if t[0] == '-' then -v else v) else None
    else if t != [] && AllDigits(t) then Some(DigitsValue(t))
    else None
  }

  /** The position of the first `.` in `s`, or `|s|` when there is none. */
  function DotIndex(s: string): (k: nat)
    ensures k <= |s|
    ensures '.' !in s[..k]
    ensures k < |s| ==> s[k] == '.'
  {
    if s == [] then 0
    else if s[0] == '.' then 0
    else assert s[1..][..DotIndex(s[1..])] == s[1..1 + DotIndex(s[1..])]; 1 + DotIndex(s[1..])
  }

  function Pow10(n: nat): (p: nat)
    ensures p >= 1
  {
    if n == 0 then 1 else 10 * Pow10(n - 1)
  }

  /** An unsigned decimal: digits with at most one `.`, at least one digit. */
  function UnsignedDecimal(body: string): Option<real> {
    var k := DotIndex(body);
    var whole := body[..k];
    var fraction := if k < |body| then body[k + 1..] else [];
    if AllDigits(whole) && AllDigits(fraction) && |whole| + |fraction| >= 1 then
      Some(DigitsValue(whole) as real + DigitsValue(fraction) as real / Pow10(|fraction|) as real)
    else None
  }

  /** `float(s)` on a plain decimal string: optional surrounding whitespace,
      an optional sign, then an unsigned decimal. */
  function ParseDecimal(s: string): Option<real> {
    var t := TrimNumeral(s);
    var body := if t != [] && (t[0] == '+' || t[0] == '-') then t[1..] else t;
    match UnsignedDecimal(body)
    case Some(x) => Some(if t != [] && t[0] == '-' then -x else x)
    case None => None
  }

  /** The decimal numeral `str(n)` of an integer. */
  function FormatNat(n: nat): (d: string)
    ensures d != [] && AllDigits(d)
  {
    var digit := ['0' + ((n % 10) as char)];
    if n < 10 then digit else FormatNat(n / 10) + digit
  }

  function FormatInt(n: int): string {
    if n < 0 then ['-'] + FormatNat(-n) else FormatNat(n)
  }

  lemma {:induction false} DigitsValueFormat(n: nat)
    ensures DigitsValue(FormatNat(n)) == n
  {
    var d := FormatNat(n);
    if n >= 10 {
      DigitsValueFormat(n / 10);
      assert d[..|d| - 1] == FormatNat(n / 10);
    }
  }

  /** `int(str(n)) == n`: ParseInt reads back every integer numeral. */
  lemma ParseFormatInt(n: int)
    ensures ParseInt(FormatInt(n)) == Some(n)
  {
    var m: nat := if n < 0 then -n else n;
    var d := FormatNat(m);
    DigitsValueFormat(m);
    var s := FormatInt(n);
    NumeralTrimmed(n);
    if n < 0 {
      assert s[1..] == d;
    } else {
      assert s == d;
    }
  }

  /** A numeral has no whitespace to trim. */
  lemma NumeralTrimmed(n: int)
    ensures TrimNumeral(FormatInt(n)) == FormatInt(n)
  {
    var m: nat := if n < 0 then -n else n;
    var d := FormatNat(m);
    var s := FormatInt(n);
    assert IsDigit(d[0]) && IsDigit(d[|d| - 1]);
    assert s[|s| - 1] == d[|d| - 1];
    assert s[0] == '-' || s[0] == d[0];
    assert LeadingNumeralSpace(s) == 0;
    assert TrailingNumeralSpace(s) == 0;
  }

  /** `int()` skips fewer characters than `strip()` removes: `"\x1c5".strip()`
      is `"5"`, yet `int("\x1c5")` raises, while `int(" 5")` is 5. */
  lemma SeparatorNotSkipped()
    ensures Strip("\U{1c}5") == "5"
    ensures ParseInt("\U{1c}5") == None
    ensures ParseInt(" 5") == Some(5)
  {
    assert LeadingSpace("\U{1c}5") == 1;
    assert LeadingNumeralSpace("\U{1c}5") == 0;
    assert TrailingNumeralSpace("\U{1c}5") == 0;
    assert LeadingNumeralSpace(" 5") == 1;
    assert TrailingNumeralSpace("5") == 0;
  }

  /** `float(str(n)) == n`: ParseDecimal agrees with ParseInt on integer
      numerals. */
  lemma ParseDecimalFormatInt(n: int)
    ensures ParseDecimal(FormatInt(n)) == Some(n as real)
  {
    var m: nat := if n < 0 then -n else n;
    var d := FormatNat(m);
    DigitsValueFormat(m);
    UnsignedDigits(d);
    var s := FormatInt(n);
    NumeralTrimmed(n);
    if n < 0 {
      assert s[0] == '-' && s[1..] == d;
      assert UnsignedDecimal(s[1..]) == Some(m as real);
    } else {
      assert s == d && s[0] != '+' && s[0] != '-';
      assert UnsignedDecimal(s) == Some(m as real);
    }
  }

  /** A digit string read as a decimal has its integer value. */
  lemma UnsignedDigits(d: string)
    requires d != [] && AllDigits(d)
    ensures UnsignedDecimal(d) == Some(DigitsValue(d) as real)
  {
    assert '.' !in d by {
      forall i | 0 <= i < |d| ensures d[i] != '.' { assert IsDigit(d[i]); }
    }
    NoDot(d);
    assert d[..|d|] == d;
  }

  lemma {:induction false} NoDot(s: string)
    requires '.' !in s
    ensures DotIndex(s) == |s|
  {
    if s != [] {
      assert '.' !in s[1..];
      NoDot(s[1..]);
    }
  }

  // ---------------------------------------------------------------------------
  // Decoded JSON values and the conversions applied to them
  // ---------------------------------------------------------------------------

  /** A decoded JSON value. Numbers with a fraction are Python floats, kept
      here as exact reals. Arrays and objects nested inside a field are never
      looked into by the code, only tested for emptiness, so they are one
      case that records whether it is empty. */
  datatype Json = JNull | JBool(b: bool) | JInt(i: int) | JFloat(x: real) | JStr(s: string) | JOther(nonEmpty: bool)

  /** Python truthiness: `bool(v)`. */
  predicate Truthy(v: Json) {
    match v
    case JNull => false
    case JBool(b) => b
    case JInt(i) => i != 0
    case JFloat(x) => x != 0.0
    case JStr(s) => s != []
    case JOther(nonEmpty) => nonEmpty
  }

  /** An element of a decoded JSON array: a dict, or anything else. */
  datatype JsonEntry = Object(fields: map<string, Json>) | NotAnObject

  /** `d.get(key, default)`. */
  function GetOr(d: map<string, Json>, key: string, default: Json): Json {
    if key in d then d[key] else default
  }

  /** `int(x)` on a float: truncation toward zero. */
  function Trunc(x: real): (n: int)
    ensures 0.0 <= x ==> n as real <= x < (n + 1) as real
    ensures x < 0.0 ==> (n - 1) as real < x <= n as real
  {
    if x >= 0.0 then x.Floor else -((-x).Floor)
  }

  /** `int(v)`; None where Python raises (None, containers, bad strings). */
  function PyInt(v: Json): Option<int> {
    match v
    case JBool(b) => Some(if b then 1 else 0)
    case JInt(i) => Some(i)
    case JFloat(x) => Some(Trunc(x))
    case JStr(s) => ParseInt(s)
    case _ => None
  }

  /** `float(v)`; None where Python raises. */
  function PyFloat(v: Json): Option<real> {
    match v
    case JBool(b) => Some(if b then 1.0 else 0.0)
    case JInt(i) => Some(i as real)
    case JFloat(x) => Some(x)
    case JStr(s) => ParseDecimal(s)
    case _ => None
  }
}
