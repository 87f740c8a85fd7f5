/**
 * One sync attempt: fetch and parse the forecast, replace the table's rows with
 * the parsed values (a delete followed by a separate bulk insert), then decide
 * whether to tell the user that new weather is available. Every exception is
 * caught, so the attempt itself never throws.
 */
module SyncTask {
  import opened Outcomes
  import opened Contract
  import opened DbHelper
  import opened Provider

  /** `DateUtils.DAY_IN_MILLIS`. */
  const DAY_IN_MILLIS: int := 86400000

  /**
   * What building the request URL, fetching the response and parsing the JSON
   * produced together: a throw from any of them, null (the JSON carried an error
   * code), or the parsed values.
   */
  type Download = Outcome<Option<seq<ContentValues>>>

  /** The table a sync attempt leaves, the change notifications it sent, and whether it told the user. */
  datatype SyncEffect = SyncEffect(table: Table, changes: seq<Uri>, notifyUser: bool)

  /**
   * `syncWeather`, as a function of the table before the attempt. A throw while
   * fetching or parsing ends the attempt at once. Parsed values that are present
   * and non-empty cause a delete of every row and then a bulk insert; a throw from
   * either ends the attempt. Otherwise the notification decision runs, whether or
   * not anything was inserted.
   */
  function SyncWeatherEffect(
    normalize: int -> int, t: Table, download: Download,
    notificationsEnabled: bool, timeSinceLastNotification: int): (e: SyncEffect)
    ensures TableValid(t) ==> TableValid(e.table)
  {
    match download
    case Threw(_) => SyncEffect(t, [], false)
    case Returned(weatherValues) =>
      if weatherValues.Some? && |weatherValues.value| != 0 then
        var deleted := DeleteEffect(t, CONTENT_URI, AllRows);
        if deleted.result.Threw? then SyncEffect(deleted.table, [], false)
        else
          var inserted := BulkInsertEffect(normalize, deleted.table, CONTENT_URI, weatherValues.value);
          var changes := Notified(deleted, CONTENT_URI) + Notified(inserted, CONTENT_URI);
          if inserted.result.Threw? then SyncEffect(inserted.table, changes, false)
          else SyncEffect(inserted.table, changes,
                 notificationsEnabled && timeSinceLastNotification >= DAY_IN_MILLIS)
      else
        SyncEffect(t, [], notificationsEnabled && timeSinceLastNotification >= DAY_IN_MILLIS)
  }

  /** With values to store, the attempt is the delete of every row followed by the bulk insert. */
  lemma StepsWithValues(
    normalize: int -> int, t: Table, values: seq<ContentValues>,
    notificationsEnabled: bool, timeSinceLastNotification: int)
    requires values != []
    ensures var deleted := DeleteEffect(t, CONTENT_URI, AllRows);
      var inserted := BulkInsertEffect(normalize, deleted.table, CONTENT_URI, values);
      var e := SyncWeatherEffect(normalize, t, Returned(Some(values)), notificationsEnabled, timeSinceLastNotification);
      && deleted.result == Returned(|t.rows|)
      && deleted.table == Table(map[], t.lastId)
      && (deleted.notify <==> t.rows != map[])
      && e.table == inserted.table
      && e.changes == Notified(deleted, CONTENT_URI) + Notified(inserted, CONTENT_URI)
      && (e.notifyUser <==> inserted.result.Returned? && notificationsEnabled && timeSinceLastNotification >= DAY_IN_MILLIS)
  {
    ContentUriMatches();
    assert |t.rows| != 0 <==> t.rows != map[];
  }

  /** With values to store, the attempt is whatever the delete and the bulk insert that follows it leave. */
  lemma SyncWithValues(
    normalize: int -> int, t: Table, values: seq<ContentValues>,
    notificationsEnabled: bool, timeSinceLastNotification: int)
    requires values != []
    ensures var deleted := DeleteEffect(t, CONTENT_URI, AllRows);
      var inserted := BulkInsertEffect(normalize, deleted.table, CONTENT_URI, values);
      SyncWeatherEffect(normalize, t, Returned(Some(values)), notificationsEnabled, timeSinceLastNotification)
        == SyncEffect(inserted.table, Notified(deleted, CONTENT_URI) + Notified(inserted, CONTENT_URI),
                      inserted.result.Returned? && notificationsEnabled && timeSinceLastNotification >= DAY_IN_MILLIS)
  {
    ContentUriMatches();
  }

  /** A failed fetch or parse changes nothing and tells nobody. */
  lemma FetchFailureChangesNothing(
    normalize: int -> int, t: Table, download: Download,
    notificationsEnabled: bool, timeSinceLastNotification: int)
    requires download.Threw?
    ensures SyncWeatherEffect(normalize, t, download, notificationsEnabled, timeSinceLastNotification)
      == SyncEffect(t, [], false)
  {
  }

  /**
   * Null or empty parsed values leave the table alone and send no change
   * notification; the user is still told when notifications are enabled and a day
   * has passed.
   */
  lemma NoValuesKeepTable(
    normalize: int -> int, t: Table, download: Download,
    notificationsEnabled: bool, timeSinceLastNotification: int)
    requires download == Returned(None) || download == Returned(Some([]))
    ensures var e := SyncWeatherEffect(normalize, t, download, notificationsEnabled, timeSinceLastNotification);
      && e.table == t
      && e.changes == []
      && (e.notifyUser <==> notificationsEnabled && timeSinceLastNotification >= DAY_IN_MILLIS)
  {
  }

  /**
   * With a non-empty batch of admissible values, the table ends up holding one row
   * per date the accepted values carry, each with the last accepted value for its
   * date, and nothing else; the old rows are gone. The delete notifies iff there
   * were rows and the insert iff it accepted any value.
   */
  lemma SyncReplacesTable(
    normalize: int -> int, t: Table, values: seq<ContentValues>,
    notificationsEnabled: bool, timeSinceLastNotification: int)
    requires values != []
    requires forall i :: 0 <= i < |values| ==> Admissible(normalize, values[i])
    ensures var e := SyncWeatherEffect(normalize, t, Returned(Some(values)), notificationsEnabled, timeSinceLastNotification);
      && (forall d :: d in e.table.rows <==> InBatch(values, d))
      && (forall i :: 0 <= i < |values| && LastForDate(values, i) ==>
            values[i].date.value in e.table.rows && Carries(e.table.rows[values[i].date.value], values[i]))
      && e.changes == (if t.rows != map[] then [CONTENT_URI] else []) +
                      (if AcceptedCount(values) > 0 then [CONTENT_URI] else [])
      && (e.notifyUser <==> notificationsEnabled && timeSinceLastNotification >= DAY_IN_MILLIS)
  {
    ContentUriMatches();
    StepsWithValues(normalize, t, values, notificationsEnabled, timeSinceLastNotification);
    var cleared := Table(map[], t.lastId);
    BatchOutcome(normalize, cleared, values);
    var batch := InsertBatch(normalize, cleared, values);
    assert batch.Completed?;
    var inserted := BulkInsertEffect(normalize, cleared, CONTENT_URI, values);
    assert inserted.table == batch.table && inserted.result == Returned(batch.inserted);
    BatchContents(normalize, cleared, values);
  }

  /**
   * Delete and bulk insert are two separate calls, not one transaction: when the
   * batch holds a value the insert loop rejects, the delete has already happened,
   * so the table is left empty rather than restored, and the user is not told.
   */
  lemma SyncRejectedBatchLeavesTableEmpty(
    normalize: int -> int, t: Table, values: seq<ContentValues>,
    notificationsEnabled: bool, timeSinceLastNotification: int)
    requires exists i :: 0 <= i < |values| && !Admissible(normalize, values[i])
    ensures var e := SyncWeatherEffect(normalize, t, Returned(Some(values)), notificationsEnabled, timeSinceLastNotification);
      && e.table.rows == map[]
      && e.changes == (if t.rows != map[] then [CONTENT_URI] else [])
      && !e.notifyUser
  {
    ContentUriMatches();
    StepsWithValues(normalize, t, values, notificationsEnabled, timeSinceLastNotification);
    BatchOutcome(normalize, Table(map[], t.lastId), values);
  }

  /**
   * The user is told exactly when fetching and parsing did not throw, the storage
   * calls (if any were made) did not throw, notifications are enabled and at least
   * a day has passed since the last one.
   */
  lemma NotifyUserIff(
    normalize: int -> int, t: Table, download: Download,
    notificationsEnabled: bool, timeSinceLastNotification: int)
    ensures SyncWeatherEffect(normalize, t, download, notificationsEnabled, timeSinceLastNotification).notifyUser
      <==>
      && download.Returned?
      && (download.value.Some? ==> forall i :: 0 <= i < |download.value.value| ==> Admissible(normalize, download.value.value[i]))
      && notificationsEnabled
      && timeSinceLastNotification >= DAY_IN_MILLIS
  {
    ContentUriMatches();
    if download.Returned? && download.value.Some? && download.value.value != [] {
      StepsWithValues(normalize, t, download.value.value, notificationsEnabled, timeSinceLastNotification);
      BatchOutcome(normalize, Table(map[], t.lastId), download.value.value);
    }
  }

  /**
   * The storage calls of `syncWeather`: delete every row, then bulk-insert the
   * parsed values. The result says whether either call threw.
   */
  method ReplaceWeather(provider: WeatherProvider, values: seq<ContentValues>) returns (failed: bool)
    requires provider.Valid()
    modifies provider`changes, provider.db
    ensures provider.Valid()
    ensures var deleted := DeleteEffect(old(provider.db.Value()), CONTENT_URI, AllRows);
      var inserted := BulkInsertEffect(provider.normalize, deleted.table, CONTENT_URI, values);
      && deleted.result.Returned?
      && provider.db.Value() == inserted.table
      && provider.changes == old(provider.changes) + Notified(deleted, CONTENT_URI) + Notified(inserted, CONTENT_URI)
      && (failed <==> inserted.result.Threw?)
  {
    ContentUriMatches();
    var deleted := provider.Delete(CONTENT_URI, AllRows);
    failed := deleted.Threw?;
    if !failed {
      var inserted := provider.BulkInsert(CONTENT_URI, values);
      failed := inserted.Threw?;
    }
  }

  /**
   * `syncWeather`. The provider stands for the content resolver the task writes
   * through; whether the user is to be notified of new weather is the result.
   */
  method SyncWeather(
    provider: WeatherProvider, download: Download,
    notificationsEnabled: bool, timeSinceLastNotification: int) returns (notifyUser: bool)
    requires provider.Valid()
    modifies provider`changes, provider.db
    ensures provider.Valid()
    ensures var e := SyncWeatherEffect(provider.normalize, old(provider.db.Value()), download,
                                       notificationsEnabled, timeSinceLastNotification);
      && provider.db.Value() == e.table
      && provider.changes == old(provider.changes) + e.changes
      && notifyUser == e.notifyUser
  {
    notifyUser := false;
    // an exception from getUrl, the HTTP fetch or the JSON parser is caught here
    if download.Threw? {
      return;
    }
    var weatherValues := download.value;
    var failed := false;
    if weatherValues.Some? && |weatherValues.value| != 0 {
      SyncWithValues(provider.normalize, provider.db.Value(), weatherValues.value,
                     notificationsEnabled, timeSinceLastNotification);
      failed := ReplaceWeather(provider, weatherValues.value);
    }
    // an exception from delete or bulkInsert skips the rest of the attempt
    if !failed {
      var oneDayPassedSinceLastNotification := false;
      if timeSinceLastNotification >= DAY_IN_MILLIS {
        oneDayPassedSinceLastNotification := true;
      }
      if notificationsEnabled && oneDayPassedSinceLastNotification {
        notifyUser := true;
      }
    }
  }
}
