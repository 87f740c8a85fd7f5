/**
 * The weather content provider: the URI matcher that routes the two locator
 * shapes, the transactional bulk insert, the query and delete routes, and the
 * operations the provider refuses. Change notifications sent through the content
 * resolver are recorded, in order, in the provider's `changes` log.
 */
module Provider {
  import opened Outcomes
  import opened Contract
  import opened DbHelper

  const CODE_WEATHER: int := 100
  const CODE_WEATHER_WITH_DATE: int := 101
  /** `UriMatcher.NO_MATCH`. */
  const NO_MATCH: int := -1

  // ---------------------------------------------------------------------------
  // URI matching

  /** One segment of a pattern given to `addURI`: literal text, or `#` for a number. */
  datatype PatternSegment = Literal(text: string) | Number

  /** One `addURI(authority, path, code)` registration. */
  datatype Route = Route(authority: string, pattern: seq<PatternSegment>, code: int)

  /** `buildUriMatcher`: `weather` is code 100 and `weather/#` is code 101. */
  function BuildUriMatcher(): seq<Route> {
    [ Route(CONTENT_AUTHORITY, [Literal(PATH_WEATHER)], CODE_WEATHER),
      Route(CONTENT_AUTHORITY, [Literal(PATH_WEATHER), Number], CODE_WEATHER_WITH_DATE) ]
  }

  predicate SegmentMatches(p: PatternSegment, segment: string) {
    match p
    case Literal(text) => segment == text
    case Number => IsNumber(segment)
  }

  /** The authority agrees and each path segment matches its pattern segment; the scheme is not looked at. */
  predicate RouteMatches(route: Route, u: Uri) {
    && u.authority == route.authority
    && |u.path| == |route.pattern|
    && forall i :: 0 <= i < |u.path| ==> SegmentMatches(route.pattern[i], u.path[i])
  }

  /** `UriMatcher.match`: the code of a registered route the URI matches, or NO_MATCH. */
  function MatchIn(routes: seq<Route>, u: Uri): (code: int)
    ensures code == NO_MATCH <==> forall i :: 0 <= i < |routes| ==> !RouteMatches(routes[i], u) || routes[i].code == NO_MATCH
    ensures code != NO_MATCH ==> exists i :: 0 <= i < |routes| && RouteMatches(routes[i], u) && routes[i].code == code
  {
    if routes == [] then NO_MATCH
    else if RouteMatches(routes[0], u) && routes[0].code != NO_MATCH then routes[0].code
    else
      var rest := MatchIn(routes[1..], u);
      assert forall i :: 1 <= i < |routes| ==> routes[i] == routes[1..][i - 1];
      rest
  }

  /** `sUriMatcher.match(uri)`. */
  function Match(u: Uri): int {
    MatchIn(BuildUriMatcher(), u)
  }

  /** The path segment a URI ends with, `uri.getLastPathSegment()`. */
  function LastPathSegment(u: Uri): string
    requires u.path != []
  {
    u.path[|u.path| - 1]
  }

  /**
   * The matcher recognizes exactly two shapes under the content authority:
   * `weather` (code 100) and `weather/<digits>` (code 101); everything else is NO_MATCH.
   */
  lemma MatchCodes(u: Uri)
    ensures Match(u) == CODE_WEATHER <==>
      u.authority == CONTENT_AUTHORITY && u.path == [PATH_WEATHER]
    ensures Match(u) == CODE_WEATHER_WITH_DATE <==>
      u.authority == CONTENT_AUTHORITY && |u.path| == 2 && u.path[0] == PATH_WEATHER && IsNumber(u.path[1])
    ensures Match(u) in {CODE_WEATHER, CODE_WEATHER_WITH_DATE, NO_MATCH}
  {
    var routes := BuildUriMatcher();
    if u.authority == CONTENT_AUTHORITY && u.path == [PATH_WEATHER] {
      assert RouteMatches(routes[0], u);
    } else if u.authority == CONTENT_AUTHORITY && |u.path| == 2 && u.path[0] == PATH_WEATHER && IsNumber(u.path[1]) {
      assert !RouteMatches(routes[0], u);
      assert RouteMatches(routes[1], u);
    } else {
      assert !RouteMatches(routes[0], u);
      if u.authority == CONTENT_AUTHORITY && |u.path| == 2 {
        assert !(SegmentMatches(routes[1].pattern[0], u.path[0]) && SegmentMatches(routes[1].pattern[1], u.path[1]));
      }
    }
  }

  /** The collection URI routes to code 100. */
  lemma ContentUriMatches()
    ensures Match(CONTENT_URI) == CODE_WEATHER
  {
    MatchCodes(CONTENT_URI);
  }

  /**
   * Round trip of the per-date URI: it routes to code 101 exactly when the date is
   * not negative (Long.toString of a negative date starts with '-', which `#`
   * refuses), and then its last segment reads back as the date the query compares
   * against.
   */
  lemma DateUriRoundTrip(date: int)
    ensures Match(BuildWeatherUriWithDate(date)) == CODE_WEATHER_WITH_DATE <==> date >= 0
    ensures Match(BuildWeatherUriWithDate(date)) != CODE_WEATHER
    ensures date >= 0 ==> DecimalValue(LastPathSegment(BuildWeatherUriWithDate(date))) == date
  {
    var u := BuildWeatherUriWithDate(date);
    MatchCodes(u);
    LongToStringIsNumber(date);
    if date >= 0 {
      DecimalRoundTrip(date);
    }
  }

  // ---------------------------------------------------------------------------
  // Bulk insert, as a function of the table

  /** A value the loop of `bulkInsert` lets through to `insert`: its date is present and normalized. */
  predicate Admissible(normalize: int -> int, values: ContentValues) {
    values.date.Some? && IsDateNormalized(normalize, values.date.value)
  }

  /** The exception `bulkInsert` throws at a value it does not let through. */
  function Rejection(values: ContentValues): Exception {
    if values.date.None? then NullPointer else IllegalArgument
  }

  /** How the insert loop ends: every value went through, or one threw. */
  datatype Batch = Completed(table: Table, inserted: nat) | Aborted(error: Exception)

  /**
   * The loop of `bulkInsert`, value by value in order. A missing date throws
   * NullPointerException (unboxing the null Long) and an un-normalized one
   * IllegalArgumentException; otherwise the value is inserted and counted when
   * `insert` did not return -1.
   */
  function InsertBatch(normalize: int -> int, t: Table, values: seq<ContentValues>): (r: Batch)
    ensures r.Completed? ==> r.inserted <= |values|
    ensures r.Completed? && TableValid(t) ==> TableValid(r.table)
    decreases |values|
  {
    if values == [] then Completed(t, 0)
    else
      match InsertBatch(normalize, t, values[..|values| - 1])
      case Aborted(e) => Aborted(e)
      case Completed(t', n) =>
        var v := values[|values| - 1];
        if !Admissible(normalize, v) then Aborted(Rejection(v))
        else
          var ins := InsertOrReplace(t', v);
          Completed(ins.table, if ins.id != -1 then n + 1 else n)
  }

  /** Once the loop has thrown, the values after that point change nothing. */
  lemma {:induction false} AbortIsFinal(normalize: int -> int, t: Table, values: seq<ContentValues>, k: nat)
    requires k <= |values|
    requires InsertBatch(normalize, t, values[..k]).Aborted?
    ensures InsertBatch(normalize, t, values) == InsertBatch(normalize, t, values[..k])
    decreases |values|
  {
    if k < |values| {
      var init := values[..|values| - 1];
      assert init[..k] == values[..k];
      AbortIsFinal(normalize, t, init, k);
    } else {
      assert values[..k] == values;
    }
  }

  /** One more turn of the loop that inserts the next value, counted when `insert` accepts it. */
  lemma AcceptStep(normalize: int -> int, t: Table, values: seq<ContentValues>, i: nat, table: Table, n: nat)
    requires i < |values| && Admissible(normalize, values[i])
    requires InsertBatch(normalize, t, values[..i]) == Completed(table, n)
    ensures var ins := InsertOrReplace(table, values[i]);
      InsertBatch(normalize, t, values[..i + 1]) == Completed(ins.table, if ins.id != -1 then n + 1 else n)
  {
    BatchStep(normalize, t, values, i);
  }

  /** One more turn of the loop that throws at the next value. */
  lemma RejectStep(normalize: int -> int, t: Table, values: seq<ContentValues>, i: nat)
    requires i < |values| && !Admissible(normalize, values[i])
    requires InsertBatch(normalize, t, values[..i]).Completed?
    ensures InsertBatch(normalize, t, values[..i + 1]) == Aborted(Rejection(values[i]))
  {
    BatchStep(normalize, t, values, i);
  }

  /** One more turn of the loop: the next value is rejected, or inserted and counted. */
  lemma BatchStep(normalize: int -> int, t: Table, values: seq<ContentValues>, i: nat)
    requires i < |values|
    requires InsertBatch(normalize, t, values[..i]).Completed?
    ensures var prev := InsertBatch(normalize, t, values[..i]);
      var ins := InsertOrReplace(prev.table, values[i]);
      InsertBatch(normalize, t, values[..i + 1]) ==
        if !Admissible(normalize, values[i]) then Aborted(Rejection(values[i]))
        else Completed(ins.table, if ins.id != -1 then prev.inserted + 1 else prev.inserted)
  {
    assert values[..i + 1][..i] == values[..i];
  }

  /** The number of values `insert` accepts: those meeting every NOT NULL constraint. */
  function AcceptedCount(values: seq<ContentValues>): (n: nat)
    ensures n <= |values|
  {
    if values == [] then 0
    else AcceptedCount(values[..|values| - 1]) + (if SatisfiesNotNull(values[|values| - 1]) then 1 else 0)
  }

  /**
   * The batch throws exactly when some value is not admissible, and then with the
   * exception for the first such value; when it completes, it has counted every
   * value `insert` accepted, replacements included.
   */
  lemma {:induction false} BatchOutcome(normalize: int -> int, t: Table, values: seq<ContentValues>)
    ensures InsertBatch(normalize, t, values).Aborted? <==>
      exists i :: 0 <= i < |values| && !Admissible(normalize, values[i])
    ensures InsertBatch(normalize, t, values).Aborted? ==>
      exists i :: 0 <= i < |values| && !Admissible(normalize, values[i])
        && (forall j :: 0 <= j < i ==> Admissible(normalize, values[j]))
        && InsertBatch(normalize, t, values).error == Rejection(values[i])
    ensures InsertBatch(normalize, t, values).Completed? ==>
      InsertBatch(normalize, t, values).inserted == AcceptedCount(values)
    decreases |values|
  {
    if values != [] {
      var init := values[..|values| - 1];
      var last := |values| - 1;
      BatchOutcome(normalize, t, init);
      assert forall i :: 0 <= i < last ==> values[i] == init[i];
      if InsertBatch(normalize, t, init).Completed? && !Admissible(normalize, values[last]) {
        assert forall j :: 0 <= j < last ==> Admissible(normalize, values[j]);
      }
      if InsertBatch(normalize, t, init).Completed? && Admissible(normalize, values[last]) {
        var ins := InsertOrReplace(InsertBatch(normalize, t, init).table, values[last]);
        assert ins.id != -1 <==> SatisfiesNotNull(values[last]);
      }
    }
  }

  /** Some accepted value of the batch carries this date. */
  predicate InBatch(values: seq<ContentValues>, date: int) {
    exists i :: 0 <= i < |values| && SatisfiesNotNull(values[i]) && values[i].date == Some(date)
  }

  /** values[i] is accepted, and no later accepted value carries its date. */
  predicate LastForDate(values: seq<ContentValues>, i: int)
    requires 0 <= i < |values|
  {
    && SatisfiesNotNull(values[i])
    && forall j :: i < j < |values| && SatisfiesNotNull(values[j]) ==> values[j].date != values[i].date
  }

  /** The last value of a batch adds its date to those the batch mentions, if `insert` accepts it. */
  lemma InBatchSnoc(values: seq<ContentValues>, date: int)
    requires values != []
    ensures var last := values[|values| - 1];
      InBatch(values, date) <==>
        InBatch(values[..|values| - 1], date) || (SatisfiesNotNull(last) && last.date == Some(date))
  {
    var init := values[..|values| - 1];
    if InBatch(init, date) {
      var i :| 0 <= i < |init| && SatisfiesNotNull(init[i]) && init[i].date == Some(date);
      assert values[i] == init[i];
    }
    if InBatch(values, date) {
      var i :| 0 <= i < |values| && SatisfiesNotNull(values[i]) && values[i].date == Some(date);
      if i < |init| {
        assert init[i] == values[i];
      }
    }
  }

  /** A completed batch is the completed batch of all but its last value, followed by one insert. */
  lemma StepCompleted(normalize: int -> int, t: Table, values: seq<ContentValues>)
    requires values != []
    requires InsertBatch(normalize, t, values).Completed?
    ensures var init := values[..|values| - 1];
      && InsertBatch(normalize, t, init).Completed?
      && Admissible(normalize, values[|values| - 1])
      && InsertBatch(normalize, t, values).table ==
           InsertOrReplace(InsertBatch(normalize, t, init).table, values[|values| - 1]).table
  {
  }

  /** A completed batch leaves the old dates plus the dates of the values `insert` accepted. */
  lemma {:induction false} BatchKeys(normalize: int -> int, t: Table, values: seq<ContentValues>)
    requires InsertBatch(normalize, t, values).Completed?
    ensures forall d :: d in InsertBatch(normalize, t, values).table.rows <==> d in t.rows || InBatch(values, d)
    decreases |values|
  {
    if values != [] {
      var init := values[..|values| - 1];
      StepCompleted(normalize, t, values);
      BatchKeys(normalize, t, init);
      forall d {
        InBatchSnoc(values, d);
      }
    }
  }

  /** A date the batch does not mention keeps the row it had. */
  lemma {:induction false} BatchKeepsUnmentioned(normalize: int -> int, t: Table, values: seq<ContentValues>, date: int)
    requires InsertBatch(normalize, t, values).Completed?
    requires date in t.rows && !InBatch(values, date)
    ensures date in InsertBatch(normalize, t, values).table.rows
    ensures InsertBatch(normalize, t, values).table.rows[date] == t.rows[date]
    decreases |values|
  {
    if values != [] {
      var init := values[..|values| - 1];
      StepCompleted(normalize, t, values);
      InBatchSnoc(values, date);
      BatchKeepsUnmentioned(normalize, t, init, date);
    }
  }

  /** A date the batch mentions holds the last accepted value carrying it: the last write wins. */
  lemma {:induction false} BatchLastWins(normalize: int -> int, t: Table, values: seq<ContentValues>, i: int)
    requires InsertBatch(normalize, t, values).Completed?
    requires 0 <= i < |values| && LastForDate(values, i)
    ensures values[i].date.value in InsertBatch(normalize, t, values).table.rows
    ensures Carries(InsertBatch(normalize, t, values).table.rows[values[i].date.value], values[i])
    decreases |values|
  {
    var init := values[..|values| - 1];
    StepCompleted(normalize, t, values);
    if i < |values| - 1 {
      assert init[i] == values[i];
      assert LastForDate(init, i);
      BatchLastWins(normalize, t, init, i);
    }
  }

  /**
   * What a completed batch leaves in the table: the old dates plus those of the
   * accepted values; a date the batch does not mention keeps its row; a date it
   * does holds the last accepted value for that date.
   */
  lemma BatchContents(normalize: int -> int, t: Table, values: seq<ContentValues>)
    requires InsertBatch(normalize, t, values).Completed?
    ensures var rows := InsertBatch(normalize, t, values).table.rows;
      && (forall d :: d in rows <==> d in t.rows || InBatch(values, d))
      && (forall d :: d in t.rows && !InBatch(values, d) ==> rows[d] == t.rows[d])
      && (forall i :: 0 <= i < |values| && LastForDate(values, i) ==>
            values[i].date.value in rows && Carries(rows[values[i].date.value], values[i]))
  {
    BatchKeys(normalize, t, values);
    forall d | d in t.rows && !InBatch(values, d) {
      BatchKeepsUnmentioned(normalize, t, values, d);
    }
    forall i | 0 <= i < |values| && LastForDate(values, i) {
      BatchLastWins(normalize, t, values, i);
    }
  }

  // ---------------------------------------------------------------------------
  // Effects of the provider's operations on the table and the change log

  /** What a provider call returned, the table it left, and whether it sent a change notification for its URI. */
  datatype Effect = Effect(result: Outcome<int>, table: Table, notify: bool)

  /**
   * `bulkInsert(uri, values)`. On the collection URI the loop runs in a transaction:
   * a throw skips `setTransactionSuccessful`, so the table keeps its prior contents;
   * otherwise the count of inserts that did not return -1 is returned and a change
   * is notified iff it is positive. Any other URI goes to the framework's
   * `bulkInsert`, which calls `insert` once per value, and `insert` always throws.
   */
  function BulkInsertEffect(normalize: int -> int, t: Table, uri: Uri, values: seq<ContentValues>): (e: Effect)
    ensures e.result.Threw? ==> e.table == t && !e.notify
    ensures e.result.Returned? ==> 0 <= e.result.value <= |values|
    ensures e.notify <==> e.result.Returned? && e.result.value > 0
    ensures Match(uri) != CODE_WEATHER ==>
      e.table == t && e.result == (if values == [] then Returned(0) else Threw(Runtime))
    ensures Match(uri) == CODE_WEATHER ==>
      (e.result.Threw? <==> exists i :: 0 <= i < |values| && !Admissible(normalize, values[i]))
    ensures TableValid(t) ==> TableValid(e.table)
  {
    if Match(uri) == CODE_WEATHER then
      BatchOutcome(normalize, t, values);
      match InsertBatch(normalize, t, values)
      case Aborted(error) => Effect(Threw(error), t, false)
      case Completed(t', n) => Effect(Returned(n), t', n > 0)
    else if values == [] then Effect(Returned(0), t, false)
    else Effect(Threw(Runtime), t, false)
  }

  /**
   * On the collection URI, bulk insert is the insert loop, committed or rolled
   * back; elsewhere it is the framework's fallback.
   */
  lemma BulkInsertCases(normalize: int -> int, t: Table, uri: Uri, values: seq<ContentValues>)
    ensures var b := InsertBatch(normalize, t, values);
      BulkInsertEffect(normalize, t, uri, values) ==
        if Match(uri) != CODE_WEATHER then
          Effect(if values == [] then Returned(0) else Threw(Runtime), t, false)
        else if b.Aborted? then Effect(Threw(b.error), t, false)
        else Effect(Returned(b.inserted), b.table, b.inserted > 0)
  {
  }

  /** The change notification a provider call sent for `uri`, if any. */
  function Notified(e: Effect, uri: Uri): (changes: seq<Uri>)
    ensures changes == [] || changes == [uri]
    ensures e.notify <==> changes != []
  {
    if e.notify then [uri] else []
  }

  /**
   * `delete(uri, selection, null)`. A null selection becomes "1", every row. Only
   * the collection URI is accepted; the count removed is returned and a change is
   * notified iff it is not zero.
   */
  function DeleteEffect(t: Table, uri: Uri, selection: Selection): (e: Effect)
    ensures Match(uri) != CODE_WEATHER ==> e == Effect(Threw(UnsupportedOperation), t, false)
    ensures Match(uri) == CODE_WEATHER ==>
      && e.result.Returned?
      && (forall d :: d in e.table.rows <==> d in t.rows && !Admits(selection, d))
      && (forall d :: d in e.table.rows ==> e.table.rows[d] == t.rows[d])
      && e.result.value == |t.rows| - |e.table.rows|
      && (e.notify <==> e.result.value != 0)
    ensures Match(uri) == CODE_WEATHER && selection == AllRows ==>
      e.table.rows == map[] && e.result == Returned(|t.rows|)
    ensures TableValid(t) ==> TableValid(e.table)
  {
    if Match(uri) == CODE_WEATHER then
      var r := DeleteWhere(t, selection);
      Effect(Returned(r.count), r.table, r.count != 0)
    else Effect(Threw(UnsupportedOperation), t, false)
  }

  /** On the collection URI, delete is the table's delete; elsewhere it throws. */
  lemma DeleteCases(t: Table, uri: Uri, selection: Selection)
    ensures var r := DeleteWhere(t, selection);
      DeleteEffect(t, uri, selection) ==
        if Match(uri) != CODE_WEATHER then Effect(Threw(UnsupportedOperation), t, false)
        else Effect(Returned(r.count), r.table, r.count != 0)
  {
  }

  // ---------------------------------------------------------------------------
  // Query

  /** Every element of `s` is strictly below every later one. */
  predicate StrictlyAscending(s: seq<int>) {
    forall i, j :: 0 <= i < j < |s| ==> s[i] < s[j]
  }

  lemma HasElement(s: set<int>)
    requires s != {}
    ensures exists x :: x in s
  {
    if forall x :: x !in s {
      assert false;
    }
  }

  predicate IsLeast(m: int, s: set<int>) {
    m in s && forall e :: e in s ==> m <= e
  }

  /** A finite non-empty set of dates has a least element. */
  lemma {:induction false} MinimumExists(s: set<int>)
    requires s != {}
    ensures exists m :: IsLeast(m, s)
    decreases |s|
  {
    HasElement(s);
    var x :| x in s;
    var rest := s - {x};
    if rest == {} {
      assert forall e :: e in s ==> e == x || e in rest;
      assert IsLeast(x, s);
    } else {
      MinimumExists(rest);
      var m :| IsLeast(m, rest);
      var least := if x < m then x else m;
      forall e | e in s
        ensures least <= e
      {
        if e != x {
          assert e in rest;
        }
      }
      assert IsLeast(least, s);
    }
  }

  /** A set has at most one least element. */
  lemma LeastIsUnique(s: set<int>)
    ensures forall m, m' :: IsLeast(m, s) && IsLeast(m', s) ==> m == m'
  {
  }

  /** The least element followed by the rest in ascending order lists the whole set in ascending order. */
  lemma PrependLeast(s: set<int>, m: int, rest: seq<int>)
    requires IsLeast(m, s)
    requires |rest| == |s - {m}|
    requires forall d :: d in rest <==> d in s - {m}
    requires StrictlyAscending(rest)
    ensures |[m] + rest| == |s|
    ensures forall d :: d in [m] + rest <==> d in s
    ensures StrictlyAscending([m] + rest)
  {
    assert forall d :: d in [m] + rest <==> d == m || d in rest;
    forall i | 0 <= i < |rest|
      ensures rest[i] in s - {m}
    {
      assert rest[i] in rest;
    }
  }

  /** The elements of a finite set of dates, in ascending order. */
  function AscendingDates(s: set<int>): (r: seq<int>)
    ensures |r| == |s|
    ensures forall d :: d in r <==> d in s
    ensures StrictlyAscending(r)
    decreases |s|
  {
    if s == {} then []
    else
      MinimumExists(s);
      LeastIsUnique(s);
      var m :| IsLeast(m, s);
      var rest := AscendingDates(s - {m});
      PrependLeast(s, m, rest);
      [m] + rest
  }

  /** The sort order a query asks for; the application only ever asks for `date ASC`. */
  datatype SortOrder = Unspecified | DateAscending

  /** In a valid table every stored row sits under its own date. */
  lemma StoredUnderDate(t: Table)
    requires TableValid(t)
    ensures forall row :: row in t.rows.Values ==> row.date in t.rows && t.rows[row.date] == row
  {
    forall row | row in t.rows.Values
      ensures row.date in t.rows && t.rows[row.date] == row
    {
      if forall d :: d in t.rows ==> t.rows[d] != row {
        assert false;
      }
    }
  }

  /** The dates of the stored rows that the selection admits. */
  function AdmittedDates(t: Table, selection: Selection): (s: set<int>)
    ensures forall d :: d in s <==> d in t.rows && Admits(selection, d)
  {
    set d | d in t.rows && Admits(selection, d)
  }

  /** The rows stored under the given dates, in the same order. */
  function RowsAt(t: Table, dates: seq<int>): (rows: seq<Row>)
    requires forall i :: 0 <= i < |dates| ==> dates[i] in t.rows
  {
    seq(|dates|, i requires 0 <= i < |dates| => t.rows[dates[i]])
  }

  lemma SelectedRows(t: Table, selection: Selection, dates: seq<int>)
    requires TableValid(t)
    requires forall d :: d in dates <==> d in AdmittedDates(t, selection)
    requires StrictlyAscending(dates)
    ensures forall i :: 0 <= i < |dates| ==> dates[i] in t.rows
    ensures forall row :: row in RowsAt(t, dates) <==> row in t.rows.Values && Admits(selection, row.date)
    ensures forall i, j :: 0 <= i < j < |dates| ==> RowsAt(t, dates)[i].date < RowsAt(t, dates)[j].date
  {
    forall i | 0 <= i < |dates|
      ensures dates[i] in t.rows && Admits(selection, dates[i])
    {
      assert dates[i] in dates;
    }
    var rows := RowsAt(t, dates);
    assert forall i :: 0 <= i < |dates| ==> rows[i].date == dates[i];
    StoredUnderDate(t);
    forall row | row in t.rows.Values && Admits(selection, row.date)
      ensures row in rows
    {
      assert row.date in dates;
      if forall i :: 0 <= i < |dates| ==> dates[i] != row.date {
        assert false;
      }
      var i :| 0 <= i < |dates| && dates[i] == row.date;
      assert rows[i] == row;
    }
  }

  /** The rows whose date the selection admits, in ascending date order. */
  function SelectRows(t: Table, selection: Selection): (rows: seq<Row>)
    requires TableValid(t)
    ensures forall row :: row in rows <==> row in t.rows.Values && Admits(selection, row.date)
    ensures forall i, j :: 0 <= i < j < |rows| ==> rows[i].date < rows[j].date
  {
    var dates := AscendingDates(AdmittedDates(t, selection));
    SelectedRows(t, selection, dates);
    RowsAt(t, dates)
  }

  /** The row stored for one date, if there is one. */
  function SelectDate(t: Table, date: int): (rows: seq<Row>)
    requires TableValid(t)
    ensures |rows| <= 1
    ensures forall row :: row in rows <==> row in t.rows.Values && row.date == date
  {
    StoredUnderDate(t);
    if date in t.rows then [t.rows[date]] else []
  }

  // ---------------------------------------------------------------------------
  // The provider object

  class WeatherProvider {
    /** `SunshineDateUtils.normalizeDate`, whose definition is not part of this model. */
    const normalize: int -> int
    var db: WeatherDatabase
    /** The URIs passed to `notifyChange`, oldest first. */
    var changes: seq<Uri>

    ghost predicate Valid()
      reads this, db
    {
      db.Valid() && db.tableExists && !db.inTransaction
    }

    /**
     * `onCreate`: opens the database through its helper. The database file
     * outlives the process: `stored` is the table an earlier run left in it, or
     * None on a first install, where the helper creates the empty weather table.
     */
    constructor (normalize: int -> int, stored: Option<Table>)
      requires stored.Some? ==> TableValid(stored.value)
      ensures Valid() && fresh(db) && this.normalize == normalize
      ensures db.Value() == (if stored.Some? then stored.value else EMPTY_TABLE) && changes == []
    {
      this.normalize := normalize;
      if stored.Some? {
        db := new WeatherDatabase.Stored(stored.value);
      } else {
        db := new WeatherDatabase();
      }
      changes := [];
      new;
      if stored.None? {
        db.OnCreate();
      }
    }

    /** `bulkInsert`, as specified by BulkInsertEffect. */
    method BulkInsert(uri: Uri, values: seq<ContentValues>) returns (r: Outcome<int>)
      requires Valid()
      modifies this`changes, db
      ensures Valid()
      ensures var e := BulkInsertEffect(normalize, old(db.Value()), uri, values);
        && r == e.result
        && db.Value() == e.table
        && changes == old(changes) + Notified(e, uri)
    {
      BulkInsertCases(normalize, db.Value(), uri, values);
      if Match(uri) != CODE_WEATHER {
        r := SuperBulkInsert(uri, values);
        return;
      }
      db.BeginTransaction();
      var rowInserted, failure := InsertEach(values);
      if failure.None? {
        db.SetTransactionSuccessful();
      }
      db.EndTransaction();
      if failure.Some? {
        r := Threw(failure.value);
        return;
      }
      if rowInserted > 0 {
        changes := changes + [uri];
      }
      r := Returned(rowInserted);
    }

    /**
     * The loop of `bulkInsert`, run inside its open transaction: each value's date
     * is unboxed and checked, then the value is inserted and counted unless
     * `insert` returned -1. The first throw ends the loop.
     */
    method InsertEach(values: seq<ContentValues>) returns (rowInserted: nat, failure: Option<Exception>)
      requires db.Valid() && db.tableExists && db.inTransaction
      modifies db`rows, db`lastId
      ensures db.Valid()
      ensures var b := InsertBatch(normalize, old(db.Value()), values);
        if failure.Some? then b == Aborted(failure.value) else b == Completed(db.Value(), rowInserted)
    {
      ghost var t0 := db.Value();
      rowInserted := 0;
      failure := None;
      var i := 0;
      while i < |values| && failure.None?
        invariant 0 <= i <= |values|
        decreases |values| - i, if failure.None? then 1 else 0
        invariant db.Valid()
        invariant failure.None? ==> InsertBatch(normalize, t0, values[..i]) == Completed(db.Value(), rowInserted)
        invariant failure.Some? ==> i < |values| && InsertBatch(normalize, t0, values[..i + 1]) == Aborted(failure.value)
      {
        var value := values[i];
        if value.date.None? {
          // unboxing the missing date
          RejectStep(normalize, t0, values, i);
          failure := Some(NullPointer);
        } else if !IsDateNormalized(normalize, value.date.value) {
          RejectStep(normalize, t0, values, i);
          failure := Some(IllegalArgument);
        } else {
          AcceptStep(normalize, t0, values, i, db.Value(), rowInserted);
          ghost var ins := InsertOrReplace(db.Value(), value);
          var id := db.Insert(value);
          assert db.Value() == ins.table && id == ins.id;
          if id != -1 {
            rowInserted := rowInserted + 1;
          }
          i := i + 1;
        }
      }
      if failure.Some? {
        AbortIsFinal(normalize, t0, values, i + 1);
      } else {
        assert values[..i] == values;
      }
    }

    /**
     * The framework's default `bulkInsert`: `insert` for each value in turn, then
     * the number of values. Here the first `insert` throws.
     */
    method SuperBulkInsert(uri: Uri, values: seq<ContentValues>) returns (r: Outcome<int>)
      ensures r == if values == [] then Returned(0) else Threw(Runtime)
    {
      if values == [] {
        r := Returned(|values|);
        return;
      }
      // the first call to insert throws, so no later value is reached
      var inserted := Insert(uri, values[0]);
      r := Threw(inserted.error);
    }

    /**
     * `query`. A date URI selects the row whose date equals its last segment and
     * ignores the caller's selection; the collection URI applies the caller's
     * selection (and sort order); any other URI throws.
     */
    function Query(uri: Uri, selection: Selection, sortOrder: SortOrder): (r: Outcome<seq<Row>>)
      requires Valid()
      reads this, db
      ensures Match(uri) == CODE_WEATHER_WITH_DATE ==>
        && r.Returned? && |r.value| <= 1
        && forall row :: row in r.value <==>
             row in db.rows.Values && row.date == DecimalValue(LastPathSegment(uri))
      ensures Match(uri) == CODE_WEATHER ==>
        && r.Returned?
        && (forall row :: row in r.value <==> row in db.rows.Values && Admits(selection, row.date))
        && (forall i, j :: 0 <= i < j < |r.value| ==> r.value[i].date != r.value[j].date)
        && (sortOrder == DateAscending ==>
              forall i, j :: 0 <= i < j < |r.value| ==> r.value[i].date < r.value[j].date)
      ensures Match(uri) == NO_MATCH ==> r == Threw(UnsupportedOperation)
    {
      MatchCodes(uri);
      if Match(uri) == CODE_WEATHER_WITH_DATE then
        Returned(SelectDate(db.Value(), DecimalValue(LastPathSegment(uri))))
      else if Match(uri) == CODE_WEATHER then
        Returned(SelectRows(db.Value(), selection))
      else
        Threw(UnsupportedOperation)
    }

    /** `delete`, as specified by DeleteEffect. */
    method Delete(uri: Uri, selection: Selection) returns (r: Outcome<int>)
      requires Valid()
      modifies this`changes, db
      ensures Valid()
      ensures var e := DeleteEffect(old(db.Value()), uri, selection);
        && r == e.result
        && db.Value() == e.table
        && changes == old(changes) + Notified(e, uri)
    {
      DeleteCases(db.Value(), uri, selection);
      if Match(uri) != CODE_WEATHER {
        r := Threw(UnsupportedOperation);
        return;
      }
      var numRowsDeleted := db.Delete(selection);
      if numRowsDeleted != 0 {
        changes := changes + [uri];
      }
      r := Returned(numRowsDeleted);
    }

    /** `insert` is not implemented: it always throws and changes nothing. */
    method Insert(uri: Uri, values: ContentValues) returns (r: Outcome<Uri>)
      ensures r == Threw(Runtime)
    {
      r := Threw(Runtime);
    }

    /** `update` is not implemented: it always throws and changes nothing. */
    method Update(uri: Uri, values: ContentValues, selection: Selection) returns (r: Outcome<int>)
      ensures r == Threw(Runtime)
    {
      r := Threw(Runtime);
    }

    /** `getType` is not implemented: it always throws. */
    method GetType(uri: Uri) returns (r: Outcome<string>)
      ensures r == Threw(Runtime)
    {
      r := Threw(Runtime);
    }
  }
}
