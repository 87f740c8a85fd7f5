/**
 * The contract between the weather provider and its clients: the authority, the
 * table and column names, the URIs that address the forecast, and the selection
 * that keeps today's and later forecasts.
 */
module Contract {

  const CONTENT_AUTHORITY: string := "com.example.android.sunshine"
  const PATH_WEATHER: string := "weather"

  const TABLE_NAME: string := "weather"

  /** `BaseColumns._ID`, the row id column every Android table carries. */
  const COLUMN_ID: string := "_id"
  const COLUMN_DATE: string := "date"
  const COLUMN_WEATHER_ID: string := "weather_id"
  const COLUMN_MIN_TEMP: string := "min"
  const COLUMN_MAX_TEMP: string := "max"
  const COLUMN_HUMIDITY: string := "humidity"
  const COLUMN_PRESSURE: string := "pressure"
  const COLUMN_WIND_SPEED: string := "wind"
  const COLUMN_DEGREES: string := "degrees"

  /** Every column of the weather table, the id first. */
  const WEATHER_COLUMNS: seq<string> := [
    COLUMN_ID, COLUMN_DATE, COLUMN_WEATHER_ID, COLUMN_MIN_TEMP, COLUMN_MAX_TEMP,
    COLUMN_HUMIDITY, COLUMN_PRESSURE, COLUMN_WIND_SPEED, COLUMN_DEGREES
  ]

  /** Column names never collide, so a projection built from them names distinct columns. */
  lemma ColumnNamesDistinct()
    ensures |WEATHER_COLUMNS| == 9
    ensures forall i, j :: 0 <= i < j < |WEATHER_COLUMNS| ==> WEATHER_COLUMNS[i] != WEATHER_COLUMNS[j]
  {
  }

  /** A hierarchical URI: `scheme://authority/path[0]/path[1]/...`. */
  datatype Uri = Uri(scheme: string, authority: string, path: seq<string>)

  /** `Uri.Builder.appendPath`: the same URI with one more path segment. */
  function AppendPath(u: Uri, segment: string): (r: Uri)
    ensures r.scheme == u.scheme && r.authority == u.authority
    ensures |r.path| == |u.path| + 1 && r.path[..|u.path|] == u.path && r.path[|u.path|] == segment
  {
    u.(path := u.path + [segment])
  }

  const BASE_CONTENT_URI: Uri := Uri("content", CONTENT_AUTHORITY, [])

  /** The URI of the whole forecast collection. */
  const CONTENT_URI: Uri := AppendPath(BASE_CONTENT_URI, PATH_WEATHER)

  lemma ContentUriShape()
    ensures CONTENT_URI == Uri("content", "com.example.android.sunshine", ["weather"])
  {
  }

  // ---------------------------------------------------------------------------
  // Decimal text of a Java long

  predicate IsDigit(c: char) {
    '0' <= c <= '9'
  }

  predicate AllDigits(s: string) {
    forall i :: 0 <= i < |s| ==> IsDigit(s[i])
  }

  /** A non-empty run of decimal digits: what a `#` segment of a URI pattern accepts. */
  predicate IsNumber(s: string) {
    |s| > 0 && AllDigits(s)
  }

  function DigitChar(d: nat): (c: char)
    requires d < 10
    ensures IsDigit(c) && c as int - '0' as int == d
  {
    (('0' as int) + d) as char
  }

  /** The decimal digits of `n`, most significant first, without leading zeros. */
  function DecimalDigits(n: nat): (s: string)
    decreases n
  {
    if n < 10 then [DigitChar(n)] else DecimalDigits(n / 10) + [DigitChar(n % 10)]
  }

  /** The number a run of decimal digits denotes. */
  function DecimalValue(s: string): nat
    requires AllDigits(s)
  {
    if s == [] then 0
    else DecimalValue(s[..|s| - 1]) * 10 + (s[|s| - 1] as int - '0' as int)
  }

  /** `Long.toString`: a minus sign for negative numbers, then the digits. */
  function LongToString(n: int): string {
    if n < 0 then "-" + DecimalDigits(-n) else DecimalDigits(n)
  }

  /** Reading back the digits of a natural number gives the number. */
  lemma {:induction false} DecimalRoundTrip(n: nat)
    ensures IsNumber(DecimalDigits(n))
    ensures DecimalValue(DecimalDigits(n)) == n
    decreases n
  {
    if n >= 10 {
      DecimalRoundTrip(n / 10);
      var s := DecimalDigits(n);
      assert s[..|s| - 1] == DecimalDigits(n / 10);
    }
  }

  /** `Long.toString(n)` is a plain run of digits exactly when `n` is not negative. */
  lemma LongToStringIsNumber(n: int)
    ensures IsNumber(LongToString(n)) <==> n >= 0
  {
    if n >= 0 {
      DecimalRoundTrip(n);
    } else {
      assert !IsDigit(LongToString(n)[0]);
    }
  }

  /** `buildWeatherUriWithDate`: the collection URI with the date's decimal text appended. */
  function BuildWeatherUriWithDate(date: int): (u: Uri)
    ensures u.scheme == CONTENT_URI.scheme && u.authority == CONTENT_AUTHORITY
    ensures u.path == [PATH_WEATHER, LongToString(date)]
  {
    AppendPath(CONTENT_URI, LongToString(date))
  }

  // ---------------------------------------------------------------------------
  // Selections over the date column

  /**
   * The row filters the application passes for the weather table: no filter at all
   * (a null selection, or the always-true "1"), or `date >= bound`.
   */
  datatype Selection = AllRows | DateAtLeast(bound: int)

  predicate Admits(selection: Selection, date: int) {
    match selection
    case AllRows => true
    case DateAtLeast(bound) => date >= bound
  }

  /**
   * `SunshineDateUtils.isDateNormalized`, stated through the date normalizer it
   * belongs with: a date is normalized exactly when normalizing it changes nothing.
   */
  predicate IsDateNormalized(normalize: int -> int, date: int) {
    normalize(date) == date
  }

  /**
   * `getSqlSelectForTodayOnwards`, with the clock reading `now` passed in: the
   * selection admits a date exactly when it is on or after today's normalized date.
   */
  function SqlSelectForTodayOnwards(normalize: int -> int, now: int): (s: Selection)
    ensures forall date :: Admits(s, date) <==> date >= normalize(now)
    ensures s != AllRows
  {
    DateAtLeast(normalize(now))
  }
}
