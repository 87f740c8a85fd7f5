# Sunshine weather cache: storage and sync, in Dafny

This project models the storage and sync layer of the Sunshine weather app. It proves properties of that model.

The layer has four parts:

- **The weather table** (`WeatherDbHelper`). The table holds one row per normalized date. It has an AUTOINCREMENT `_id`, eight NOT NULL data columns, and `UNIQUE (date) ON CONFLICT REPLACE`. An upgrade drops the table and creates it again.
- **The content provider** (`WeatherProvider`). Its URI matcher routes `weather` to code 100 and `weather/<digits>` to code 101.
  - `bulkInsert` inserts value by value inside a transaction. A missing or un-normalized date throws, and the throw rolls the whole batch back.
  - `query` returns the whole collection under the caller's selection, or the single row for one date.
  - `delete` removes rows from the collection.
  - `insert`, `update` and `getType` always throw.
  - `notifyChange` calls are recorded in order, in the provider's `changes` log.
- **The contract** (`WeatherContract`). It holds the authority, the column names, the collection URI, the per-date URI built from `Long.toString(date)`, and the "today onwards" selection.
- **One sync attempt** (`SunshineSyncTask.syncWeather`). It fetches and parses the forecast. When values come back, it deletes every row and then bulk-inserts the values. It then decides whether to tell the user, and it catches every exception.

Files:

- `outcomes.dfy`: `Option`, and the Java exceptions as an `Outcome` datatype.
- `contract.dfy`: the `Contract` module.
- `dbhelper.dfy`: the `DbHelper` module. It holds the schema, the `Table` value with its invariant, and the SQLite insert and delete functions. It also holds the `WeatherDatabase` class, with its transactions, `OnCreate` and `OnUpgrade`.
- `provider.dfy`: the `Provider` module. It holds the matcher, the specification of the insert loop and its lemmas, and the `WeatherProvider` class.
- `sync.dfy`: the `SyncTask` module. It holds the sync attempt as a function, its lemmas, and the imperative `SyncWeather` method.

Each state-changing method is proved against a specification function of the old state:

| method | specification function |
|---|---|
| `WeatherProvider.BulkInsert` | `BulkInsertEffect` |
| `WeatherProvider.Delete` | `DeleteEffect` |
| `WeatherDatabase.Insert` | `InsertOrReplace` |
| `SyncWeather` | `SyncWeatherEffect` |

The lemmas state what those functions promise.

Behaviour worth knowing, as the code has it:

- **The sync does not replace the table atomically.** `delete` and `bulkInsert` are two separate calls. Suppose the batch holds a value whose date is missing or not normalized. The insert transaction rolls back, but the delete has already been committed, so the table is left empty (`SyncRejectedBatchLeavesTableEmpty`).
- **The count includes replacements.** `bulkInsert` counts every insert that did not return -1. A value that replaces an earlier value for the same date is counted too. The count is therefore the number of values that pass the NOT NULL constraints (`BatchOutcome`), not the number of distinct dates.
- **The notification decision runs even when nothing was stored.** It runs whenever fetching, parsing and storing did not throw. This includes a null or empty parse (`NoValuesKeepTable`, `NotifyUserIff`).
- **A negative date gets a URI that does not route.** `Long.toString` of a negative date starts with `-`, and the matcher's `#` does not accept that. Such a URI gets NO_MATCH (`DateUriRoundTrip`).

## Model

| member | source | states |
|---|---|---|
| `Contract.ColumnNamesDistinct` | app/src/main/java/com/example/sunshineweatherapp/data/WeatherContract.java:44-58 | the nine column names (`_id` and the eight data columns) are pairwise distinct |
| `Contract.ContentUriShape` | app/src/main/java/com/example/sunshineweatherapp/data/WeatherContract.java:29-40 | the collection URI is `content://com.example.android.sunshine/weather`: the authority plus the single segment `weather` |
| `Contract.BuildWeatherUriWithDate` | app/src/main/java/com/example/sunshineweatherapp/data/WeatherContract.java:61-65 | the per-date URI is the collection URI with exactly one more segment, `Long.toString(date)` |
| `Contract.DecimalRoundTrip` | app/src/main/java/com/example/sunshineweatherapp/data/WeatherContract.java:63 | the decimal text of a natural number is a non-empty run of digits, and reading it back gives the number |
| `Contract.LongToStringIsNumber` | app/src/main/java/com/example/sunshineweatherapp/data/WeatherContract.java:63 | `Long.toString(n)` is a plain run of digits iff `n >= 0` |
| `Contract.SqlSelectForTodayOnwards` | app/src/main/java/com/example/sunshineweatherapp/data/WeatherContract.java:67-70 | the selection admits a date iff it is on or after `normalizeDate(now)` |
| `DbHelper.SchemaShape` | app/src/main/java/com/example/sunshineweatherapp/data/WeatherDbHelper.java:37-51 | every data column is NOT NULL; date and weather_id are integers and the rest reals; the columns are the contract's, `_id` first; date is unique with replace on conflict |
| `DbHelper.NotNullMatchesSchema` | app/src/main/java/com/example/sunshineweatherapp/data/WeatherDbHelper.java:42-49 | a value passes the schema's NOT NULL constraints iff all eight data columns are present |
| `DbHelper.InsertOrReplace` | app/src/main/java/com/example/sunshineweatherapp/data/WeatherDbHelper.java:41-51 | insert returns -1 and leaves the table alone iff a NOT NULL column is missing; otherwise the date's row carries the new values under the id one above the AUTOINCREMENT counter, which it advances to that id, so no id is handed out twice even after a delete; that id is above every stored id, other dates keep their rows, and dates stay unique |
| `DbHelper.DeleteWhere` | app/src/main/java/com/example/sunshineweatherapp/data/WeatherProvider.java:165-168 | a delete keeps exactly the rows the selection does not admit, unchanged, and counts the removed ones; the selection "1" empties the table and counts every row |
| `DbHelper.WeatherDatabase.constructor` | app/src/main/java/com/example/sunshineweatherapp/data/WeatherDbHelper.java:31-33 | a database that does not yet hold the weather table |
| `DbHelper.WeatherDatabase.Stored` | app/src/main/java/com/example/sunshineweatherapp/data/WeatherDbHelper.java:31-33 | a database file left by an earlier run: the weather table exists and holds exactly the stored rows and counter |
| `DbHelper.WeatherDatabase.OnCreate` | app/src/main/java/com/example/sunshineweatherapp/data/WeatherDbHelper.java:35-56 | creating the table yields an empty, valid weather table |
| `DbHelper.WeatherDatabase.DropTableIfExists` | app/src/main/java/com/example/sunshineweatherapp/data/WeatherDbHelper.java:62 | after the drop the table is gone, with its rows and AUTOINCREMENT counter |
| `DbHelper.WeatherDatabase.OnUpgrade` | app/src/main/java/com/example/sunshineweatherapp/data/WeatherDbHelper.java:60-65 | whatever the versions and prior contents, after an upgrade the table exists and is empty |
| `DbHelper.WeatherDatabase.Insert` | app/src/main/java/com/example/sunshineweatherapp/data/WeatherProvider.java:76 | the database's insert changes the table exactly as `InsertOrReplace` says and keeps the invariant |
| `DbHelper.WeatherDatabase.Delete` | app/src/main/java/com/example/sunshineweatherapp/data/WeatherProvider.java:165-168 | the database's delete changes the table exactly as `DeleteWhere` says |
| `DbHelper.WeatherDatabase.BeginTransaction` | app/src/main/java/com/example/sunshineweatherapp/data/WeatherProvider.java:66 | opens a transaction, not yet successful, remembering the current contents |
| `DbHelper.WeatherDatabase.SetTransactionSuccessful` | app/src/main/java/com/example/sunshineweatherapp/data/WeatherProvider.java:81 | marks the open transaction successful |
| `DbHelper.WeatherDatabase.EndTransaction` | app/src/main/java/com/example/sunshineweatherapp/data/WeatherProvider.java:82-85 | closes the transaction: the contents stay if it was marked successful, and otherwise return to what they were at its start |
| `Provider.MatchIn` | app/src/main/java/com/example/sunshineweatherapp/data/WeatherProvider.java:24-34 | matching yields NO_MATCH iff no registered route matches, and otherwise the code of a route that does |
| `Provider.MatchCodes` | app/src/main/java/com/example/sunshineweatherapp/data/WeatherProvider.java:24-34 | `weather` routes to 100, `weather/<digits>` routes to 101, and everything else to NO_MATCH (both directions of each) |
| `Provider.ContentUriMatches` | app/src/main/java/com/example/sunshineweatherapp/data/WeatherProvider.java:28 | the collection URI routes to code 100 |
| `Provider.DateUriRoundTrip` | app/src/main/java/com/example/sunshineweatherapp/data/WeatherContract.java:61-65 | the per-date URI routes to 101 iff the date is not negative, never to 100, and its last segment reads back as the date |
| `Provider.InsertBatch` | app/src/main/java/com/example/sunshineweatherapp/data/WeatherProvider.java:67-80 | the insert loop's count never exceeds the number of values, and the loop keeps dates unique and ids fresh |
| `Provider.AbortIsFinal` | app/src/main/java/com/example/sunshineweatherapp/data/WeatherProvider.java:69-74 | after the loop throws, later values change nothing |
| `Provider.AcceptedCount` | app/src/main/java/com/example/sunshineweatherapp/data/WeatherProvider.java:76-79 | the number of values insert accepts is at most the number of values |
| `Provider.BatchOutcome` | app/src/main/java/com/example/sunshineweatherapp/data/WeatherProvider.java:69-80 | the loop throws iff some value has a missing or un-normalized date, and it throws the exception of the first such value; otherwise it counts exactly the values insert accepted |
| `Provider.InBatchSnoc` | app/src/main/java/com/example/sunshineweatherapp/data/WeatherProvider.java:69 | a batch mentions a date iff its prefix does, or its last value is accepted and carries that date |
| `Provider.StepCompleted` | app/src/main/java/com/example/sunshineweatherapp/data/WeatherProvider.java:69-80 | a completed batch is its completed prefix followed by one admissible insert |
| `Provider.BatchKeys` | app/src/main/java/com/example/sunshineweatherapp/data/WeatherDbHelper.java:51 | a completed batch leaves exactly the old dates plus the dates of the accepted values |
| `Provider.BatchKeepsUnmentioned` | app/src/main/java/com/example/sunshineweatherapp/data/WeatherDbHelper.java:51 | a date the batch does not mention keeps its row |
| `Provider.BatchLastWins` | app/src/main/java/com/example/sunshineweatherapp/data/WeatherDbHelper.java:51 | a date the batch mentions holds the last accepted value with that date |
| `Provider.BatchContents` | app/src/main/java/com/example/sunshineweatherapp/data/WeatherProvider.java:66-85 | the three facts above together: which dates the table holds after a batch and which row each one has |
| `Provider.BulkInsertEffect` | app/src/main/java/com/example/sunshineweatherapp/data/WeatherProvider.java:58-97 | a throw leaves the table as it was and notifies nothing; a result lies between 0 and the number of values; a change is notified iff the result is positive; on the collection URI it throws iff some date is missing or un-normalized; any other URI leaves the table alone and returns 0 for no values, otherwise throws |
| `Provider.DeleteEffect` | app/src/main/java/com/example/sunshineweatherapp/data/WeatherProvider.java:155-182 | only the collection URI is accepted (others throw UnsupportedOperationException); it removes exactly the admitted rows, returns how many, and notifies iff that is not zero; with no selection it empties the table |
| `Provider.AscendingDates` | app/src/main/java/com/example/sunshineweatherapp/data/WeatherProvider.java:123-131 | lists a set of dates strictly ascending, each exactly once |
| `Provider.StoredUnderDate` | app/src/main/java/com/example/sunshineweatherapp/data/WeatherDbHelper.java:51 | in a valid table every row is stored under its own date |
| `Provider.SelectedRows` | app/src/main/java/com/example/sunshineweatherapp/data/WeatherProvider.java:123-131 | the rows under the ascending admitted dates are exactly the admitted rows, in ascending date order |
| `Provider.SelectRows` | app/src/main/java/com/example/sunshineweatherapp/data/WeatherProvider.java:123-131 | a collection query returns exactly the stored rows the selection admits, in ascending date order |
| `Provider.SelectDate` | app/src/main/java/com/example/sunshineweatherapp/data/WeatherProvider.java:105-121 | a date query returns at most one row, which is exactly the stored row with that date |
| `Provider.WeatherProvider.constructor` | app/src/main/java/com/example/sunshineweatherapp/data/WeatherProvider.java:37-41 | the provider opens the database through its helper: the table an earlier run left, unchanged, or on a first install the empty table the helper's `onCreate` creates; no change has been notified |
| `Provider.WeatherProvider.BulkInsert` | app/src/main/java/com/example/sunshineweatherapp/data/WeatherProvider.java:58-97 | the loop inside begin/end transaction yields exactly `BulkInsertEffect`: result, new table, and one change notification for the URI iff rows were inserted |
| `Provider.WeatherProvider.InsertEach` | app/src/main/java/com/example/sunshineweatherapp/data/WeatherProvider.java:69-80 | the loop inside the open transaction ends exactly as `InsertBatch` says: thrown with its exception, or completed with its table and count |
| `Provider.WeatherProvider.SuperBulkInsert` | app/src/main/java/com/example/sunshineweatherapp/data/WeatherProvider.java:94-95 | the fallback for other URIs returns 0 for no values and otherwise throws, because this provider's insert throws |
| `Provider.WeatherProvider.Query` | app/src/main/java/com/example/sunshineweatherapp/data/WeatherProvider.java:99-141 | a date URI returns exactly the row whose date equals its last segment, whatever selection the caller gave; the collection URI returns exactly the rows the caller's selection admits, each once (no two with the same date), sorted by date when asked; any other URI throws UnsupportedOperationException |
| `Provider.WeatherProvider.Delete` | app/src/main/java/com/example/sunshineweatherapp/data/WeatherProvider.java:155-182 | delete yields exactly `DeleteEffect`: result, new table, and a change notification iff rows were removed |
| `Provider.WeatherProvider.Insert` | app/src/main/java/com/example/sunshineweatherapp/data/WeatherProvider.java:148-153 | always throws, and changes nothing |
| `Provider.WeatherProvider.Update` | app/src/main/java/com/example/sunshineweatherapp/data/WeatherProvider.java:184-187 | always throws, and changes nothing |
| `Provider.WeatherProvider.GetType` | app/src/main/java/com/example/sunshineweatherapp/data/WeatherProvider.java:143-146 | always throws |
| `SyncTask.SyncWeatherEffect` | app/src/main/java/com/example/sunshineweatherapp/sync/SunshineSyncTask.java:18-92 | a sync attempt keeps the table's invariant (unique dates, fresh ids) |
| `SyncTask.StepsWithValues` | app/src/main/java/com/example/sunshineweatherapp/sync/SunshineSyncTask.java:40-54 | with values to store, the attempt first empties the table, then bulk-inserts; it notifies the user only if the insert did not throw |
| `SyncTask.FetchFailureChangesNothing` | app/src/main/java/com/example/sunshineweatherapp/sync/SunshineSyncTask.java:20-32 | a throw from URL building, fetch or parse is caught: the table is unchanged, no change is notified, and the user is not told |
| `SyncTask.NoValuesKeepTable` | app/src/main/java/com/example/sunshineweatherapp/sync/SunshineSyncTask.java:40-85 | with null or empty parsed values the table is neither deleted from nor inserted into, yet the user is told iff notifications are enabled and a day has passed |
| `SyncTask.SyncReplacesTable` | app/src/main/java/com/example/sunshineweatherapp/sync/SunshineSyncTask.java:46-54 | with non-empty admissible values the table holds exactly one row per date of the accepted values, the last value for each date winning; the delete and the insert each notify iff they changed something |
| `SyncTask.SyncRejectedBatchLeavesTableEmpty` | app/src/main/java/com/example/sunshineweatherapp/sync/SunshineSyncTask.java:46-54 | if the batch has a missing or un-normalized date, the delete has already happened, so the table ends empty and the user is not told |
| `SyncTask.NotifyUserIff` | app/src/main/java/com/example/sunshineweatherapp/sync/SunshineSyncTask.java:61-85 | the user is told iff nothing threw, notifications are enabled, and at least `DAY_IN_MILLIS` (86,400,000 ms) have passed since the last notification |
| `SyncTask.ReplaceWeather` | app/src/main/java/com/example/sunshineweatherapp/sync/SunshineSyncTask.java:46-54 | the delete of every row and the bulk insert that follows leave the table and notifications their effects say; the delete never throws on the collection URI, and the pair fails iff the insert threw |
| `SyncTask.SyncWeather` | app/src/main/java/com/example/sunshineweatherapp/sync/SunshineSyncTask.java:18-92 | the step-by-step attempt, with its catch-all and its one-day flag, yields exactly `SyncWeatherEffect`: new table, change notifications, and the decision to tell the user |

## Left out

- `normalizeDate` and `isDateNormalized` come from a date utility that is not part of this model. `normalizeDate` is a parameter: the `normalize` field of the provider. A date counts as normalized iff `normalize(date) == date`. No arithmetic is assumed for `normalize`.
- The network fetch and JSON parsing are not part of this model. They are one parameter, `Download`: a throw, null (the error-code case), or the parsed values.
- The notification preferences and the notification utility are not part of this model. The enabled flag and the time since the last notification are parameters. Telling the user is the method's result. How the last-notification time is recorded is not modelled, so no property spans two sync attempts.
- The clock is a parameter: `now` in `SqlSelectForTodayOnwards`.
- Projections, cursors, `setNotificationUri`, and the observers and loaders that re-run queries are not modelled. A query returns its rows as a sequence. A change notification is one URI appended to the `changes` log.
- SQL selection strings are not parsed. The model knows only the two selections the app uses: none (null or "1") and `date >= X`. `selectionArgs` is not modelled, because every caller passes null.
- `Provider.WeatherProvider.Query`: when no sort order is given, SQLite leaves the order unspecified. The model returns rows in ascending date order either way, and promises that order only when `date ASC` is asked for.
- Each `ContentValues` is limited to the eight weather columns, each present or null. The model does not cover extra columns, or values stored with another Java type, which `getAsLong` would convert.
- Dates and ids are unbounded integers. The 64-bit range of a Java long is not modelled. A `#` segment longer than a long holds would overflow in SQLite, and the model does not cover that.
- URIs are given already split into scheme, authority and non-empty path segments. `Uri.parse` and `getPathSegments` are not modelled.
- The matcher's routes are a list tried in order, where Android uses a tree. For the two registered patterns the result is the same.
- `Provider.WeatherProvider.SuperBulkInsert`: the framework's fallback loops over the values. It is modelled by its first call, because this provider's `insert` always throws.
- Opening the database is only partly modelled. The provider starts from either a first install or the table an earlier run stored. Two things are not modelled: `getWritableDatabase` opening the file lazily, and the helper calling `onUpgrade` on a version change. Nested transactions are not modelled.
- `DbHelper.InsertOrReplace`: I/O and storage failures are not modelled. A full disk, an I/O error or a locked database would make `insert` return -1, so the model's "-1 only for a missing NOT NULL column" holds only while storage works. The same failures would make `delete`, `query` or the commit in `endTransaction` throw SQLiteException, which the sync's catch-all swallows. The model never produces these failures.
- Temperatures, humidity, pressure, wind speed and direction are opaque `real` payload, with no arithmetic and no validation.
- Concurrency is not modelled: the `synchronized` modifier on `syncWeather`, background scheduling, and transaction isolation between threads.
- The stack trace printed by the catch-all is not modelled.
- The Android UI (activities, adapter, loaders, formatting) is not modelled.
