/**
 * The shaping half of the CSV reader (`parseCSVFile`) and the workbook
 * reader (`parseExcelFile`) in DataBase-Analyser/server/dbParser.js.
 * csv-parser and xlsx are not modelled: their output, the decoded row
 * objects, is the input here, and a library failure is a `Failure`.
 */
module Tabular {
  import opened Wrappers
  import opened Schema
  import OrderedMap

  /** The name of the single table a CSV file yields. */
  const CsvTableName := "csv_data"

  /** A header turned into a schema entry: type TEXT, not NOT NULL, no default and no primary-key property. */
  function TextColumn(name: string): Column
  {
    Column(name, "TEXT", false, None, None)
  }

  /** The schema both readers derive: one TEXT column per property of the first row, in its enumeration order. */
  function HeaderColumns(rows: seq<Row>): (cols: seq<Column>)
    ensures |rows| == 0 ==> cols == []
    ensures |rows| > 0 ==> |cols| == |rows[0].fields|
    ensures |rows| > 0 ==> forall i :: 0 <= i < |cols| ==> cols[i] == TextColumn(rows[0].fields[i].0)
  {
    var headers := if |rows| > 0 then FieldNames(rows[0]) else [];
    seq(|headers|, i requires 0 <= i < |headers| => TextColumn(headers[i]))
  }

  /** The table record built once every CSV data row has been streamed. */
  function CsvTable(rows: seq<Row>): Table
  {
    Table(HeaderColumns(rows), Take(rows, SampleSize), |rows|)
  }

  /**
   * `parseCSVFile`: an error raised by the CSV parser stream rejects with
   * the parser's message; otherwise the result holds exactly one table,
   * `csv_data`, whose columns are the first row's headers, counting every
   * data row and sampling the first five. `source` is what the parser
   * stream delivers: its rows, or its own error.
   */
  function ParseCsv(source: Result<seq<Row>>): (r: Result<Database>)
    ensures source.Failure? <==> r.Failure?
    ensures source.Failure? ==> r.error == "Error reading CSV file: " + source.error
    ensures r.Success? ==> OrderedMap.Keys(r.value.tables) == [CsvTableName]
    ensures r.Success? ==> r.value.tables[0].1.schema == HeaderColumns(source.value)
    ensures r.Success? ==> r.value.tables[0].1.rowCount == |source.value|
    ensures r.Success? ==> |r.value.tables[0].1.sampleData| == if |source.value| < SampleSize then |source.value| else SampleSize
    ensures r.Success? ==> r.value.tables[0].1.sampleData <= source.value
    ensures r.Success? && |source.value| == 0 ==> r.value.tables[0].1 == Table([], [], 0)
  {
    match source
    case Failure(e) => Failure("Error reading CSV file: " + e)
    case Success(rows) => Success(Database([(CsvTableName, CsvTable(rows))]))
  }

  /** A worksheet as `sheet_to_json` decodes it: its name and its data rows. */
  datatype Sheet = Sheet(name: string, rows: seq<Row>)

  /** The per-sheet record, with the explicit empty-sheet branch of the source. */
  function SheetTable(sheet: Sheet): Table
  {
    if |sheet.rows| > 0 then
      Table(HeaderColumns(sheet.rows), Take(sheet.rows, SampleSize), |sheet.rows|)
    else
      Table([], [], 0)
  }

  /** The two branches of the sheet loop agree with the CSV shaping: a sheet and a CSV file with the same rows give the same table. */
  lemma SheetTableIsCsvShaping(sheet: Sheet)
    ensures SheetTable(sheet) == CsvTable(sheet.rows)
  {
    if |sheet.rows| == 0 {
      assert Take(sheet.rows, SampleSize) == [];
    }
  }

  function SheetEntries(sheets: seq<Sheet>): (es: seq<(string, Table)>)
    ensures |es| == |sheets|
    ensures forall i :: 0 <= i < |sheets| ==> es[i] == (sheets[i].name, SheetTable(sheets[i]))
  {
    seq(|sheets|, i requires 0 <= i < |sheets| => (sheets[i].name, SheetTable(sheets[i])))
  }

  /** The table map the sheet loop leaves: keyed by the sheet names, one entry per distinct name, every sample bounded. */
  lemma SheetTablesShape(sheets: seq<Sheet>)
    ensures forall i :: 0 <= i < |sheets| ==> sheets[i].name in OrderedMap.Keys(OrderedMap.PutAll([], SheetEntries(sheets)))
    ensures forall k :: k in OrderedMap.Keys(OrderedMap.PutAll([], SheetEntries(sheets))) ==> exists i :: 0 <= i < |sheets| && sheets[i].name == k
    ensures OrderedMap.DistinctKeys(OrderedMap.PutAll([], SheetEntries(sheets)))
    ensures forall i :: 0 <= i < |OrderedMap.PutAll([], SheetEntries(sheets))| ==> SampleBounded(OrderedMap.PutAll([], SheetEntries(sheets))[i].1)
  {
    var entries := SheetEntries(sheets);
    var tables := OrderedMap.PutAll([], entries);
    forall k ensures k in OrderedMap.Keys(tables) <==> k in OrderedMap.Keys(entries) {
      OrderedMap.PutAllKeys(entries, k);
    }
    OrderedMap.PutAllDistinct([], entries);
    OrderedMap.PutAllPreserves([], entries, SampleBounded);
  }

  /**
   * `parseExcelFile`: an unreadable workbook rejects; otherwise every sheet,
   * empty or not, gets a table under its name, in workbook order.
   */
  function ParseExcel(workbook: Result<seq<Sheet>>): (r: Result<Database>)
    ensures workbook.Failure? <==> r.Failure?
    ensures workbook.Failure? ==> r.error == "Error parsing Excel file: " + workbook.error
    ensures r.Success? ==> forall i :: 0 <= i < |workbook.value| ==> workbook.value[i].name in OrderedMap.Keys(r.value.tables)
    ensures r.Success? ==> forall k :: k in OrderedMap.Keys(r.value.tables) ==> exists i :: 0 <= i < |workbook.value| && workbook.value[i].name == k
    ensures r.Success? ==> OrderedMap.DistinctKeys(r.value.tables)
    ensures r.Success? ==> forall i :: 0 <= i < |r.value.tables| ==> SampleBounded(r.value.tables[i].1)
  {
    match workbook
    case Failure(e) => Failure("Error parsing Excel file: " + e)
    case Success(sheets) =>
      var tables := OrderedMap.PutAll([], SheetEntries(sheets));
      SheetTablesShape(sheets);
      Success(Database(tables))
  }

  /** With distinct sheet names (as a workbook has) the tables are exactly the sheets, one each, in workbook order. */
  lemma ExcelTablesFollowWorkbook(sheets: seq<Sheet>)
    requires forall i, j :: 0 <= i < j < |sheets| ==> sheets[i].name != sheets[j].name
    ensures ParseExcel(Success(sheets)).value.tables == SheetEntries(sheets)
  {
    OrderedMap.PutAllFresh(SheetEntries(sheets));
  }

  /** An empty sheet is kept, as a table with no schema, no sample and no rows. */
  lemma EmptySheetKept(sheets: seq<Sheet>, i: nat)
    requires forall a, b :: 0 <= a < b < |sheets| ==> sheets[a].name != sheets[b].name
    requires i < |sheets| && |sheets[i].rows| == 0
    ensures OrderedMap.Get(ParseExcel(Success(sheets)).value.tables, sheets[i].name) == Some(Table([], [], 0))
  {
    ExcelTablesFollowWorkbook(sheets);
    OrderedMap.GetAtIndex(SheetEntries(sheets), i);
  }
}
