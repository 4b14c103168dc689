/**
 * The shaping half of `parseSQLiteFile` and `getTableSchema` in
 * DataBase-Analyser/server/dbParser.js. The sqlite3 engine is not
 * modelled: each object of the `sqlite_master` catalog arrives with what
 * the engine would answer to the three per-table queries, or the error it
 * would raise.
 */
module SqliteParser {
  import opened Wrappers
  import opened Schema
  import Text
  import OrderedMap

  /** One row of `PRAGMA table_info(t)`. */
  datatype PragmaRow = PragmaRow(cid: int, name: string, declaredType: string, notnull: int, dfltValue: Option<string>, pk: int)

  /**
   * One `sqlite_master` object with the engine's answers about it:
   * `tableInfo` for `PRAGMA table_info`, `rows` (the stored rows in scan
   * order) for `SELECT *` and `COUNT(*)`, and the errors, if any, those two
   * queries raise.
   */
  datatype MasterEntry = MasterEntry(
    objType: string,
    name: string,
    tableInfo: Result<seq<PragmaRow>>,
    rows: seq<Row>,
    sampleError: Option<string>,
    countError: Option<string>)

  /** An opened (or unopenable) database file as the engine presents it. */
  datatype SqliteFile = SqliteFile(openError: Option<string>, listError: Option<string>, master: seq<MasterEntry>)

  /** One catalog row as a schema entry: NOT NULL iff `notnull` is 1, primary key iff `pk` is exactly 1. */
  function ColumnOf(p: PragmaRow): (c: Column)
    ensures c.name == p.name && c.colType == p.declaredType && c.defaultValue == p.dfltValue
    ensures c.notNull <==> p.notnull == 1
    ensures FlaggedPrimaryKey(c) <==> p.pk == 1
    ensures c.isPrimaryKey.Some?
  {
    Column(p.name, p.declaredType, p.notnull == 1, p.dfltValue, Some(p.pk == 1))
  }

  /** `columns.map(…)`: one schema entry per catalog row, in catalog order. */
  function SchemaOf(info: seq<PragmaRow>): (cols: seq<Column>)
    ensures |cols| == |info|
    ensures forall i :: 0 <= i < |info| ==> cols[i] == ColumnOf(info[i])
  {
    seq(|info|, i requires 0 <= i < |info| => ColumnOf(info[i]))
  }

  /** In a composite key (`pk` numbering 1, 2, …) only the column numbered 1 is flagged. */
  lemma CompositeKeyFlagsFirstOnly(info: seq<PragmaRow>, i: nat)
    requires i < |info| && info[i].pk > 1
    ensures !FlaggedPrimaryKey(SchemaOf(info)[i])
  {
  }

  /**
   * `name LIKE 'sqlite_%'`: LIKE ignores ASCII case and `_` matches any one
   * character, so this holds of every name of at least seven characters
   * whose first six spell `sqlite` in any case.
   */
  predicate LikeSqlitePrefix(name: string)
  {
    |name| >= 7 && Text.ToLower(name[..6]) == "sqlite"
  }

  /** The catalog query: objects of type `table` whose name is not LIKE `sqlite_%`, in catalog order. */
  function UserTables(master: seq<MasterEntry>): (ts: seq<MasterEntry>)
    ensures forall t :: t in ts <==> t in master && t.objType == "table" && !LikeSqlitePrefix(t.name)
  {
    if |master| == 0 then []
    else
      var rest := UserTables(master[1..]);
      assert forall t :: t in master <==> t == master[0] || t in master[1..];
      if master[0].objType == "table" && !LikeSqlitePrefix(master[0].name) then [master[0]] + rest else rest
  }

  /** The filter also drops user tables whose seventh character is not `_`, such as `SQLiteData`. */
  lemma UnderscoreIsAWildcard(c: char, rest: string)
    ensures LikeSqlitePrefix("SQLite" + [c] + rest)
  {
    var name := "SQLite" + [c] + rest;
    assert name[..6] == "SQLite";
    assert Text.ToLower("SQLite") == "sqlite";
  }

  /** All three per-table steps succeed. */
  predicate Loadable(t: MasterEntry)
  {
    t.tableInfo.Success? && t.sampleError.None? && t.countError.None?
  }

  /** The failure, if any, of the three per-table steps, in the order the loop runs them. */
  function StepError(t: MasterEntry): (e: Option<string>)
    ensures e.None? <==> Loadable(t)
  {
    if t.tableInfo.Failure? then Some("Error getting table schema: " + t.tableInfo.error)
    else if t.sampleError.Some? then Some("Error getting sample data: " + t.sampleError.value)
    else if t.countError.Some? then Some("Error getting row count: " + t.countError.value)
    else None
  }

  /** The record stored for a table whose three steps succeeded. */
  function TableOf(t: MasterEntry): (tbl: Table)
    requires t.tableInfo.Success?
    ensures tbl.schema == SchemaOf(t.tableInfo.value)
    ensures tbl.rowCount == |t.rows|
    ensures |tbl.sampleData| == if |t.rows| < SampleSize then |t.rows| else SampleSize
    ensures |t.rows| <= SampleSize ==> tbl.sampleData == t.rows
    ensures tbl.sampleData <= t.rows
  {
    Table(SchemaOf(t.tableInfo.value), Take(t.rows, SampleSize), |t.rows|)
  }


  /** The `tables[name] = {…}` assignments a fully successful loop performs, in loop order. */
  function Entries(ts: seq<MasterEntry>): (es: seq<(string, Table)>)
    requires forall i :: 0 <= i < |ts| ==> Loadable(ts[i])
    ensures |es| == |ts|
    ensures forall i :: 0 <= i < |ts| ==> Loadable(ts[i]) && es[i] == (ts[i].name, TableOf(ts[i]))
  {
    seq(|ts|, i requires 0 <= i < |ts| && Loadable(ts[i]) => (ts[i].name, TableOf(ts[i])))
  }

  lemma EntriesSnoc(ts: seq<MasterEntry>, i: nat)
    requires i < |ts|
    requires forall j :: 0 <= j <= i ==> Loadable(ts[j])
    ensures OrderedMap.PutAll([], Entries(ts[..i + 1]))
         == OrderedMap.Put(OrderedMap.PutAll([], Entries(ts[..i])), ts[i].name, TableOf(ts[i]))
  {
    var es := Entries(ts[..i + 1]);
    assert es[..i] == Entries(ts[..i]);
    assert es[i] == (ts[i].name, TableOf(ts[i]));
  }

  /** Table `i` is the first whose steps fail, and its step error is `e`. */
  ghost predicate FirstFailure(ts: seq<MasterEntry>, e: string)
  {
    exists i :: 0 <= i < |ts| && StepError(ts[i]) == Some(e) && forall j :: 0 <= j < i ==> Loadable(ts[j])
  }

  /**
   * The per-table loop: schema, sample and count for each table in turn.
   * The first failing step rejects the whole parse with its message and no
   * table map; otherwise every table is stored under its name.
   */
  method LoadTables(ts: seq<MasterEntry>) returns (r: Result<Tables>)
    ensures r.Success? <==> forall i :: 0 <= i < |ts| ==> Loadable(ts[i])
    ensures r.Failure? ==> exists i :: 0 <= i < |ts| && StepError(ts[i]) == Some(r.error)
                                  && forall j :: 0 <= j < i ==> Loadable(ts[j])
    ensures r.Success? ==> r.value == OrderedMap.PutAll([], Entries(ts))
    ensures r.Success? ==> forall i :: 0 <= i < |r.value| ==> SampleBounded(r.value[i].1)
  {
    var tables: Tables := [];
    var i := 0;
    while i < |ts|
      invariant 0 <= i <= |ts|
      invariant forall j :: 0 <= j < i ==> Loadable(ts[j])
      invariant tables == OrderedMap.PutAll([], Entries(ts[..i]))
    {
      var t := ts[i];
      match StepError(t)
      case Some(e) =>
        return Failure(e);
      case None =>
        EntriesSnoc(ts, i);
        tables := OrderedMap.Put(tables, t.name, TableOf(t));
      i := i + 1;
    }
    assert ts[..i] == ts;
    OrderedMap.PutAllPreserves([], Entries(ts), SampleBounded);
    return Success(tables);
  }

  /**
   * `parseSQLiteFile`: an open error or a catalog error rejects before any
   * table is read; otherwise the result is that of the per-table loop over
   * the user tables: the first failing table's step error, or every table.
   */
  method ParseSqliteFile(f: SqliteFile) returns (r: Result<Database>)
    ensures f.openError.Some? ==> r == Failure("Error opening SQLite database: " + f.openError.value)
    ensures f.openError.None? && f.listError.Some? ==> r == Failure("Error retrieving tables: " + f.listError.value)
    ensures f.openError.None? && f.listError.None? ==>
      (r.Success? <==> forall t :: t in UserTables(f.master) ==> Loadable(t))
    ensures f.openError.None? && f.listError.None? && r.Failure? ==> FirstFailure(UserTables(f.master), r.error)
    ensures r.Success? ==> r.value.tables == OrderedMap.PutAll([], Entries(UserTables(f.master)))
    ensures r.Success? ==> forall i :: 0 <= i < |r.value.tables| ==> SampleBounded(r.value.tables[i].1)
  {
    if f.openError.Some? {
      return Failure("Error opening SQLite database: " + f.openError.value);
    }
    if f.listError.Some? {
      return Failure("Error retrieving tables: " + f.listError.value);
    }
    var loaded := LoadTables(UserTables(f.master));
    match loaded
    case Failure(e) =>
      r := Failure(e);
    case Success(tables) =>
      r := Success(Database(tables));
  }

  /** `sqlite_master` names its tables distinctly, and then the tables appear once each, in catalog order. */
  lemma SqliteTablesFollowCatalog(ts: seq<MasterEntry>)
    requires forall i :: 0 <= i < |ts| ==> Loadable(ts[i])
    requires forall i, j :: 0 <= i < j < |ts| ==> ts[i].name != ts[j].name
    ensures OrderedMap.PutAll([], Entries(ts)) == Entries(ts)
  {
    OrderedMap.PutAllFresh(Entries(ts));
  }
}
