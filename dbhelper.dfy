/**
 * The weather database: the schema `onCreate` creates, the rows it holds, and the
 * SQLite behaviour the provider relies on (insert with replace-on-conflict by date,
 * delete by selection, transactions that roll back unless marked successful, and
 * the drop-and-recreate upgrade).
 */
module DbHelper {
  import opened Outcomes
  import opened Contract

  const DATABASE_NAME: string := "weather.db"
  const DATABASE_VERSION: int := 3

  // ---------------------------------------------------------------------------
  // Schema

  /** SQLite type affinity of a column. */
  datatype Affinity = IntegerAffinity | RealAffinity

  datatype ColumnDef = ColumnDef(name: string, affinity: Affinity, notNull: bool)

  /**
   * The table `onCreate` creates: an autoincrementing integer primary key `_id`,
   * the data columns below, and `UNIQUE (date) ON CONFLICT REPLACE`.
   */
  datatype Schema = Schema(
    table: string,
    idColumn: string,
    idAutoincrement: bool,
    columns: seq<ColumnDef>,
    uniqueColumn: string,
    replaceOnConflict: bool)

  const WEATHER_SCHEMA: Schema := Schema(
    TABLE_NAME,
    COLUMN_ID,
    true,
    [ ColumnDef(COLUMN_DATE, IntegerAffinity, true),
      ColumnDef(COLUMN_WEATHER_ID, IntegerAffinity, true),
      ColumnDef(COLUMN_MIN_TEMP, RealAffinity, true),
      ColumnDef(COLUMN_MAX_TEMP, RealAffinity, true),
      ColumnDef(COLUMN_HUMIDITY, RealAffinity, true),
      ColumnDef(COLUMN_PRESSURE, RealAffinity, true),
      ColumnDef(COLUMN_WIND_SPEED, RealAffinity, true),
      ColumnDef(COLUMN_DEGREES, RealAffinity, true) ],
    COLUMN_DATE,
    true)

  /**
   * Every data column is NOT NULL; date and weather_id are integers and the rest
   * reals; the table's columns are exactly the contract's, the id first; dates are
   * unique and a clash replaces.
   */
  lemma SchemaShape()
    ensures forall c :: c in WEATHER_SCHEMA.columns ==> c.notNull
    ensures forall i :: 0 <= i < |WEATHER_SCHEMA.columns| ==>
      (WEATHER_SCHEMA.columns[i].affinity == IntegerAffinity <==> i < 2)
    ensures [WEATHER_SCHEMA.idColumn] + seq(|WEATHER_SCHEMA.columns|, i requires 0 <= i < |WEATHER_SCHEMA.columns| => WEATHER_SCHEMA.columns[i].name) == WEATHER_COLUMNS
    ensures WEATHER_SCHEMA.uniqueColumn == COLUMN_DATE && WEATHER_SCHEMA.replaceOnConflict
  {
  }

  // ---------------------------------------------------------------------------
  // Values and rows

  /**
   * One `ContentValues` for the weather table: each column may be missing (or
   * null). The temperatures, humidity, pressure, wind speed and direction are
   * opaque payload.
   */
  datatype ContentValues = ContentValues(
    date: Option<int>,
    weatherId: Option<int>,
    minTemp: Option<real>,
    maxTemp: Option<real>,
    humidity: Option<real>,
    pressure: Option<real>,
    windSpeed: Option<real>,
    degrees: Option<real>)

  /** Whether `values` holds a non-null value for the named column. */
  predicate HasValue(values: ContentValues, column: string) {
    if column == COLUMN_DATE then values.date.Some?
    else if column == COLUMN_WEATHER_ID then values.weatherId.Some?
    else if column == COLUMN_MIN_TEMP then values.minTemp.Some?
    else if column == COLUMN_MAX_TEMP then values.maxTemp.Some?
    else if column == COLUMN_HUMIDITY then values.humidity.Some?
    else if column == COLUMN_PRESSURE then values.pressure.Some?
    else if column == COLUMN_WIND_SPEED then values.windSpeed.Some?
    else if column == COLUMN_DEGREES then values.degrees.Some?
    else false
  }

  /** The row would pass the NOT NULL constraint of each of the eight data columns. */
  predicate SatisfiesNotNull(values: ContentValues) {
    && values.date.Some? && values.weatherId.Some? && values.minTemp.Some?
    && values.maxTemp.Some? && values.humidity.Some? && values.pressure.Some?
    && values.windSpeed.Some? && values.degrees.Some?
  }

  /** SatisfiesNotNull is exactly what the schema's NOT NULL columns demand. */
  lemma NotNullMatchesSchema(values: ContentValues)
    ensures SatisfiesNotNull(values) <==>
      forall c :: c in WEATHER_SCHEMA.columns && c.notNull ==> HasValue(values, c.name)
  {
    var cs := WEATHER_SCHEMA.columns;
    if forall c :: c in cs && c.notNull ==> HasValue(values, c.name) {
      assert HasValue(values, cs[0].name) && HasValue(values, cs[1].name);
      assert HasValue(values, cs[2].name) && HasValue(values, cs[3].name);
      assert HasValue(values, cs[4].name) && HasValue(values, cs[5].name);
      assert HasValue(values, cs[6].name) && HasValue(values, cs[7].name);
    }
  }

  /** A stored row of the weather table. */
  datatype Row = Row(
    id: nat,
    date: int,
    weatherId: int,
    minTemp: real,
    maxTemp: real,
    humidity: real,
    pressure: real,
    windSpeed: real,
    degrees: real)

  /** The row stores exactly the column values `values` supplied. */
  predicate Carries(row: Row, values: ContentValues) {
    values == ContentValues(Some(row.date), Some(row.weatherId), Some(row.minTemp),
      Some(row.maxTemp), Some(row.humidity), Some(row.pressure), Some(row.windSpeed),
      Some(row.degrees))
  }

  function RowOf(id: nat, values: ContentValues): (row: Row)
    requires SatisfiesNotNull(values)
    ensures row.id == id && Carries(row, values)
  {
    Row(id, values.date.value, values.weatherId.value, values.minTemp.value,
      values.maxTemp.value, values.humidity.value, values.pressure.value,
      values.windSpeed.value, values.degrees.value)
  }

  // ---------------------------------------------------------------------------
  // The table as a value

  /**
   * The weather table's contents, keyed by date (the UNIQUE column), together with
   * the AUTOINCREMENT counter: the largest id ever handed out.
   */
  datatype Table = Table(rows: map<int, Row>, lastId: nat)

  const EMPTY_TABLE: Table := Table(map[], 0)

  /**
   * Each row sits under its own date, so no two rows share a date; ids are
   * distinct and never above the counter.
   */
  predicate TableValid(t: Table) {
    && (forall d :: d in t.rows ==> t.rows[d].date == d && 1 <= t.rows[d].id <= t.lastId)
    && (forall d, e :: d in t.rows && e in t.rows && d != e ==> t.rows[d].id != t.rows[e].id)
  }

  /** The table after an insert, and the id `insert` returned (-1 on failure). */
  datatype Inserted = Inserted(table: Table, id: int)

  /**
   * `SQLiteDatabase.insert` into the weather table: a NOT NULL violation aborts the
   * statement and yields -1 with the table unchanged; otherwise the row gets a
   * fresh id and replaces any row that holds the same date.
   */
  function InsertOrReplace(t: Table, values: ContentValues): (r: Inserted)
    ensures r.id == -1 <==> !SatisfiesNotNull(values)
    ensures r.id == -1 ==> r.table == t
    ensures r.id != -1 ==>
      && var d := values.date.value;
      && r.table.rows.Keys == t.rows.Keys + {d}
      && r.table.rows[d].id == r.id && Carries(r.table.rows[d], values)
      && (forall e :: e in t.rows && e != d ==> r.table.rows[e] == t.rows[e])
      && (TableValid(t) ==> forall e :: e in t.rows ==> t.rows[e].id < r.id)
      && r.id == t.lastId + 1 && r.table.lastId == r.id
    ensures TableValid(t) ==> TableValid(r.table)
  {
    if !SatisfiesNotNull(values) then Inserted(t, -1)
    else
      var id := t.lastId + 1;
      Inserted(Table(t.rows[values.date.value := RowOf(id, values)], id), id)
  }

  /** The table after a delete, and the number of rows removed. */
  datatype Deleted = Deleted(table: Table, count: nat)

  /** `SQLiteDatabase.delete` with a selection over the date column. */
  function DeleteWhere(t: Table, selection: Selection): (r: Deleted)
    ensures r.table.lastId == t.lastId
    ensures forall d :: d in r.table.rows <==> d in t.rows && !Admits(selection, d)
    ensures forall d :: d in r.table.rows ==> r.table.rows[d] == t.rows[d]
    ensures r.count == |t.rows| - |r.table.rows|
    ensures selection == AllRows ==> r.table.rows == map[] && r.count == |t.rows|
    ensures TableValid(t) ==> TableValid(r.table)
  {
    var kept := map d | d in t.rows && !Admits(selection, d) :: t.rows[d];
    var removed := t.rows.Keys - kept.Keys;
    assert t.rows.Keys == kept.Keys + removed;
    Deleted(Table(kept, t.lastId), |removed|)
  }

  // ---------------------------------------------------------------------------
  // The database object

  /**
   * The SQLite database behind `WeatherDbHelper`: whether the weather table exists,
   * its rows and AUTOINCREMENT counter, and the state of the open transaction (the
   * contents to restore if it ends without being marked successful).
   */
  class WeatherDatabase {
    var tableExists: bool
    var rows: map<int, Row>
    var lastId: nat
    var inTransaction: bool
    var transactionSuccessful: bool
    var savepoint: Table

    function Value(): Table
      reads this
    {
      Table(rows, lastId)
    }

    ghost predicate Valid()
      reads this
    {
      && TableValid(Value())
      && (!tableExists ==> Value() == EMPTY_TABLE)
      && (inTransaction ==> tableExists && TableValid(savepoint))
    }

    /** A database file in which the weather table has not been created yet. */
    constructor ()
      ensures Valid() && !tableExists && !inTransaction && Value() == EMPTY_TABLE
    {
      tableExists := false;
      rows := map[];
      lastId := 0;
      inTransaction := false;
      transactionSuccessful := false;
      savepoint := EMPTY_TABLE;
    }

    /**
     * A database file left by an earlier run of the app: the weather table exists
     * and holds what the last sync stored, with its AUTOINCREMENT counter.
     */
    constructor Stored(t: Table)
      requires TableValid(t)
      ensures Valid() && tableExists && !inTransaction && Value() == t
    {
      tableExists := true;
      rows := t.rows;
      lastId := t.lastId;
      inTransaction := false;
      transactionSuccessful := false;
      savepoint := EMPTY_TABLE;
    }

    /** `onCreate`: CREATE TABLE with the weather schema; the new table is empty. */
    method OnCreate()
      requires Valid() && !tableExists && !inTransaction
      modifies this`tableExists
      ensures Valid() && tableExists && Value() == EMPTY_TABLE
    {
      tableExists := true;
    }

    /**
     * DROP TABLE IF EXISTS: the rows go, and so does the table's AUTOINCREMENT
     * counter.
     */
    method DropTableIfExists()
      requires Valid() && !inTransaction
      modifies this`tableExists, this`rows, this`lastId
      ensures Valid() && !tableExists && Value() == EMPTY_TABLE
    {
      tableExists := false;
      rows := map[];
      lastId := 0;
    }

    /**
     * `onUpgrade`: drop the table, then create it again. Whatever the versions and
     * whatever the table held, it is afterwards empty with the same schema.
     */
    method OnUpgrade(oldVersion: int, newVersion: int)
      requires Valid() && !inTransaction
      modifies this`tableExists, this`rows, this`lastId
      ensures Valid() && tableExists && Value() == EMPTY_TABLE
    {
      DropTableIfExists();
      OnCreate();
    }

    /** `insert(TABLE_NAME, null, values)`, as specified by InsertOrReplace. */
    method Insert(values: ContentValues) returns (id: int)
      requires Valid() && tableExists
      modifies this`rows, this`lastId
      ensures Valid()
      ensures Inserted(Value(), id) == InsertOrReplace(old(Value()), values)
    {
      if !SatisfiesNotNull(values) {
        // the NOT NULL constraint aborts the statement
        id := -1;
        return;
      }
      lastId := lastId + 1;
      id := lastId;
      // ON CONFLICT REPLACE: the row holding the same date, if any, is removed
      rows := rows[values.date.value := RowOf(id, values)];
    }

    /** `delete(TABLE_NAME, selection, null)`, as specified by DeleteWhere. */
    method Delete(selection: Selection) returns (count: nat)
      requires Valid() && tableExists
      modifies this`rows
      ensures Valid()
      ensures Deleted(Value(), count) == DeleteWhere(old(Value()), selection)
    {
      var r := DeleteWhere(Value(), selection);
      rows, count := r.table.rows, r.count;
    }

    method BeginTransaction()
      requires Valid() && tableExists && !inTransaction
      modifies this`inTransaction, this`transactionSuccessful, this`savepoint
      ensures Valid() && inTransaction && !transactionSuccessful && savepoint == Value()
    {
      inTransaction := true;
      transactionSuccessful := false;
      savepoint := Value();
    }

    method SetTransactionSuccessful()
      requires Valid() && inTransaction
      modifies this`transactionSuccessful
      ensures Valid() && transactionSuccessful
    {
      transactionSuccessful := true;
    }

    /**
     * `endTransaction`: commits what was done since `beginTransaction` if the
     * transaction was marked successful, and otherwise rolls it all back.
     */
    method EndTransaction()
      requires Valid() && inTransaction
      modifies this`inTransaction, this`rows, this`lastId
      ensures Valid() && !inTransaction
      ensures Value() == if old(transactionSuccessful) then old(Value()) else old(savepoint)
    {
      if !transactionSuccessful {
        rows, lastId := savepoint.rows, savepoint.lastId;
      }
      inTransaction := false;
    }
  }
}
