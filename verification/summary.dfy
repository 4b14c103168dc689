/**
 * `formatDatabaseSummary` in DataBase-Analyser/server.js: the plain-text
 * description of a parsed database that goes into the assistant's prompt.
 * `JSON.stringify(row)` is not modelled: rows are rendered by a parameter.
 */
module Summary {
  import opened Wrappers
  import opened Schema
  import Text

  /** What a session may hold as its parsed data: nothing, an object without `tables`, or a parsed database. */
  datatype SessionData = NoData | WithoutTables | Parsed(db: Database)

  const NoStructure := "No database structure available."

  /** How many sample rows a summary lists at most. */
  const SummaryRows: nat := 3

  /** One schema line: `  - name (type)`, then ` PRIMARY KEY` when flagged, then ` NOT NULL` when set. */
  function ColumnLine(c: Column): string
  {
    "  - " + c.name + " (" + c.colType + ")"
      + (if FlaggedPrimaryKey(c) then " PRIMARY KEY" else "")
      + (if c.notNull then " NOT NULL" else "") + "\n"
  }

  /** The flags at the end of a schema line appear exactly when the column carries them, in that order. */
  lemma ColumnLineFlags(c: Column)
    ensures var head := "  - " + c.name + " (" + c.colType + ")";
      var line := ColumnLine(c);
      && line[..|head|] == head
      && |line| == |head| + (if FlaggedPrimaryKey(c) then 12 else 0) + (if c.notNull then 9 else 0) + 1
      && (FlaggedPrimaryKey(c) <==> |line| >= |head| + 13 && line[|head|..|head| + 12] == " PRIMARY KEY")
      && (c.notNull <==> |line| >= |head| + 10 && line[|line| - 10..] == " NOT NULL\n")
  {
    var head := "  - " + c.name + " (" + c.colType + ")";
    var pk := if FlaggedPrimaryKey(c) then " PRIMARY KEY" else "";
    var nn := if c.notNull then " NOT NULL" else "";
    var line := ColumnLine(c);
    assert line == head + pk + nn + "\n";
    if FlaggedPrimaryKey(c) {
      assert line[|head|..|head| + 12] == pk;
    }
    if c.notNull {
      assert line[|line| - 10..] == nn + "\n";
    } else if |line| >= |head| + 10 {
      assert line[|line| - 2] == 'Y';
      assert line[|line| - 10..][8] == line[|line| - 2];
    }
  }

  /** The `Columns:` section: present only for a non-empty schema, one line per column in schema order. */
  function ColumnsSection(schema: seq<Column>): (r: string)
    ensures r == "" <==> |schema| == 0
    ensures |schema| > 0 ==> |r| > 9 && r[..9] == "Columns:\n"
  {
    if |schema| == 0 then ""
    else "Columns:\n" + Text.Concat(seq(|schema|, i requires 0 <= i < |schema| => ColumnLine(schema[i])))
  }

  /** One sample line, numbered from 1. */
  function SampleLine(index: nat, row: Row, render: Row -> string): string
  {
    "  Row " + Text.NatToString(index + 1) + ": " + render(row) + "\n"
  }

  /** The sample section: present only for a non-empty sample, listing at most its first three rows. */
  function SampleSection(rows: seq<Row>, render: Row -> string): (r: string)
    ensures r == "" <==> |rows| == 0
  {
    if |rows| == 0 then ""
    else
      var shown := Take(rows, SummaryRows);
      "Sample data (first 3 rows):\n" + Text.Concat(seq(|shown|, i requires 0 <= i < |shown| => SampleLine(i, shown[i], render)))
  }

  /** Rows after the third never reach the summary. */
  lemma SampleUsesFirstThree(rows: seq<Row>, more: seq<Row>, render: Row -> string)
    requires |rows| >= SummaryRows
    ensures SampleSection(rows + more, render) == SampleSection(rows, render)
  {
    assert Take(rows + more, SummaryRows) == Take(rows, SummaryRows);
  }

  /** The block of one table: name, row count, the optional sections and a blank line. */
  function TableBlock(name: string, t: Table, render: Row -> string): (r: string)
  {
    "Table: " + name + "\n" + "Row count: " + Text.NatToString(t.rowCount) + "\n"
      + ColumnsSection(t.schema) + SampleSection(t.sampleData, render) + "\n"
  }

  /** The summary of a table map: the blocks of its tables, in insertion order. */
  function TablesSummary(tables: Tables, render: Row -> string): (r: string)
    ensures tables == [] ==> r == ""
  {
    if |tables| == 0 then ""
    else TablesSummary(tables[..|tables| - 1], render) + TableBlock(tables[|tables| - 1].0, tables[|tables| - 1].1, render)
  }

  /** The summary of what a session holds. */
  function DatabaseSummary(data: SessionData, render: Row -> string): (r: string)
    ensures !data.Parsed? ==> r == NoStructure
    ensures data.Parsed? && data.db.tables == [] ==> r == ""
  {
    match data
    case Parsed(db) => TablesSummary(db.tables, render)
    case _ => NoStructure
  }

  /** A block opens with its table's name and its row count, which reads back as the count, and ends with a blank line. */
  lemma TableBlockShape(name: string, t: Table, render: Row -> string)
    ensures var head := "Table: " + name + "\n" + "Row count: ";
      var digits := |Text.NatToString(t.rowCount)|;
      var block := TableBlock(name, t, render);
      && |block| > |head| + digits
      && block[..|head|] == head
      && Text.ParseDigits(block[|head|..|head| + digits]) == t.rowCount
      && block[|head| + digits] == '\n'
      && block[|block| - 1] == '\n'
  {
    var head := "Table: " + name + "\n" + "Row count: ";
    var count := Text.NatToString(t.rowCount);
    var rest := "\n" + ColumnsSection(t.schema) + SampleSection(t.sampleData, render) + "\n";
    assert TableBlock(name, t, render) == head + count + rest;
    ThreePieces(head, count, rest);
    Text.ParseNatToString(t.rowCount);
  }

  /** The middle and the ends of a three-piece string. */
  lemma ThreePieces(h: string, c: string, r: string)
    requires |r| > 0
    ensures (h + c + r)[..|h|] == h && (h + c + r)[|h|..|h| + |c|] == c
    ensures (h + c + r)[|h| + |c|] == r[0] && (h + c + r)[|h + c + r| - 1] == r[|r| - 1]
  {
  }

  /** Adding a table to the map adds its block at the end of the summary, after every earlier table's block. */
  lemma SummaryAppend(tables: Tables, name: string, t: Table, render: Row -> string)
    ensures TablesSummary(tables + [(name, t)], render) == TablesSummary(tables, render) + TableBlock(name, t, render)
  {
    assert (tables + [(name, t)])[..|tables|] == tables;
  }

  /** The summary of one more table of the map. */
  lemma SummaryStep(tables: Tables, i: nat, render: Row -> string)
    requires i < |tables|
    ensures TablesSummary(tables[..i + 1], render) == TablesSummary(tables[..i], render) + TableBlock(tables[i].0, tables[i].1, render)
  {
    assert tables[..i + 1] == tables[..i] + [(tables[i].0, tables[i].1)];
    SummaryAppend(tables[..i], tables[i].0, tables[i].1, render);
  }

  /**
   * The loop of the source, `summary += …` statement by statement: over the
   * tables, and for each table over its schema and its first three sample rows.
   */
  method FormatDatabaseSummary(data: SessionData, render: Row -> string) returns (summary: string)
    ensures summary == DatabaseSummary(data, render)
  {
    if !data.Parsed? {
      return NoStructure;
    }
    var tables := data.db.tables;
    summary := "";
    var i := 0;
    while i < |tables|
      invariant 0 <= i <= |tables|
      invariant summary == TablesSummary(tables[..i], render)
    {
      var block := FormatTable(tables[i].0, tables[i].1, render);
      SummaryStep(tables, i, render);
      summary := summary + block;
      i := i + 1;
    }
    assert tables[..i] == tables;
  }

  /** The statements of the loop body for one table. */
  method FormatTable(tableName: string, tableData: Table, render: Row -> string) returns (block: string)
    ensures block == TableBlock(tableName, tableData, render)
  {
    block := "Table: " + tableName + "\n";
    block := block + "Row count: " + Text.NatToString(tableData.rowCount) + "\n";
    if |tableData.schema| > 0 {
      var lines := FormatColumns(tableData.schema);
      block := block + lines;
    }
    if |tableData.sampleData| > 0 {
      var lines := FormatSample(tableData.sampleData, render);
      block := block + lines;
    }
    block := block + "\n";
  }

  /** `schema.forEach(…)` after the `Columns:` heading. */
  method FormatColumns(schema: seq<Column>) returns (lines: string)
    requires |schema| > 0
    ensures lines == ColumnsSection(schema)
  {
    lines := "Columns:\n";
    var j := 0;
    while j < |schema|
      invariant 0 <= j <= |schema|
      invariant lines == "Columns:\n" + Text.Concat(seq(j, k requires 0 <= k < j => ColumnLine(schema[k])))
    {
      ConcatSnoc(seq(j, k requires 0 <= k < j => ColumnLine(schema[k])), ColumnLine(schema[j]));
      assert seq(j + 1, k requires 0 <= k < j + 1 => ColumnLine(schema[k]))
          == seq(j, k requires 0 <= k < j => ColumnLine(schema[k])) + [ColumnLine(schema[j])];
      lines := lines + ColumnLine(schema[j]);
      j := j + 1;
    }
    assert seq(j, k requires 0 <= k < j => ColumnLine(schema[k])) == seq(|schema|, i requires 0 <= i < |schema| => ColumnLine(schema[i]));
  }

  /** `sampleData.slice(0, 3).forEach(…)` after the sample heading. */
  method FormatSample(rows: seq<Row>, render: Row -> string) returns (lines: string)
    requires |rows| > 0
    ensures lines == SampleSection(rows, render)
  {
    var shown := Take(rows, SummaryRows);
    lines := "Sample data (first 3 rows):\n";
    var j := 0;
    while j < |shown|
      invariant 0 <= j <= |shown|
      invariant lines == "Sample data (first 3 rows):\n" + Text.Concat(seq(j, k requires 0 <= k < j => SampleLine(k, shown[k], render)))
    {
      ConcatSnoc(seq(j, k requires 0 <= k < j => SampleLine(k, shown[k], render)), SampleLine(j, shown[j], render));
      assert seq(j + 1, k requires 0 <= k < j + 1 => SampleLine(k, shown[k], render))
          == seq(j, k requires 0 <= k < j => SampleLine(k, shown[k], render)) + [SampleLine(j, shown[j], render)];
      lines := lines + SampleLine(j, shown[j], render);
      j := j + 1;
    }
    assert seq(j, k requires 0 <= k < j => SampleLine(k, shown[k], render)) == seq(|shown|, i requires 0 <= i < |shown| => SampleLine(i, shown[i], render));
  }

  /** Appending one more part to the parts appends it to their concatenation. */
  lemma ConcatSnoc(parts: seq<string>, x: string)
    ensures Text.Concat(parts + [x]) == Text.Concat(parts) + x
  {
    Text.ConcatAppend(parts, [x]);
    Text.ConcatSingle(x);
  }
}
