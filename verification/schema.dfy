/**
 * The uniform shape every parser produces:
 * `{ tables: { name → { schema, sampleData, rowCount } } }`.
 */
module Schema {
  import opened Wrappers
  import OrderedMap

  /** A loosely typed cell value as the decoding libraries hand it over. */
  datatype Value = Null | Int(i: int) | Real(decimal: string) | Text(s: string) | Bool(b: bool)

  /**
   * A decoded row object: its properties with their values, in the order
   * the object enumerates them (`Object.keys`).
   */
  datatype Row = Row(fields: seq<(string, Value)>)

  /** `Object.keys(row)`. */
  function FieldNames(row: Row): (names: seq<string>)
    ensures |names| == |row.fields|
    ensures forall i :: 0 <= i < |names| ==> names[i] == row.fields[i].0
  {
    seq(|row.fields|, i requires 0 <= i < |row.fields| => row.fields[i].0)
  }

  /**
   * One schema entry. `defaultValue` is `None` where the source leaves the
   * field out or sets it to `null`/`undefined`; `isPrimaryKey` is `None`
   * where the source object has no such property at all.
   */
  datatype Column = Column(
    name: string,
    colType: string,
    notNull: bool,
    defaultValue: Option<string>,
    isPrimaryKey: Option<bool>)

  /** The truthiness of `column.isPrimaryKey`: an absent property reads as false. */
  predicate FlaggedPrimaryKey(c: Column)
  {
    c.isPrimaryKey == Some(true)
  }

  datatype Table = Table(schema: seq<Column>, sampleData: seq<Row>, rowCount: nat)

  type Tables = OrderedMap.OMap<Table>

  datatype Database = Database(tables: Tables)

  /** The number of rows every parser keeps as a sample (`LIMIT 5`, `slice(0, 5)`). */
  const SampleSize: nat := 5

  /** A table samples at most `SampleSize` rows and never more rows than it counts. */
  predicate SampleBounded(t: Table)
  {
    |t.sampleData| <= SampleSize && |t.sampleData| <= t.rowCount
  }

  /** `xs.slice(0, n)` in JavaScript, `xs[:n]` in Python. */
  function Take<T>(xs: seq<T>, n: nat): (r: seq<T>)
    ensures |r| == if n <= |xs| then n else |xs|
    ensures r == xs[..|r|]
  {
    if n <= |xs| then xs[..n] else xs
  }
}
