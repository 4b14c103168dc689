/**
 * The Python service's reader and prompt builder in
 * DataBase-Analyser/server/main.py: `read_file` turns a CSV, workbook or
 * SQLite file into a dictionary of records, and `create_data_context`
 * describes that dictionary as text. pandas and sqlite3 are not modelled:
 * the frames and tables they would produce are inputs, and Python's
 * `repr` of a row is a parameter.
 */
module PyReader {
  import opened Schema
  import Text
  import OrderedMap

  /** A decoded row: a list of cell values (`df.values.tolist()`, or a tuple from `fetchall`). */
  type PyRow = seq<Value>

  /** A decoded table: its column names and its rows. */
  datatype Frame = Frame(columns: seq<string>, rows: seq<PyRow>)

  /** What the libraries would produce for the file: the CSV frame, the workbook's sheets in order, and the database's tables in catalog order. */
  datatype PySource = PySource(csv: Frame, sheets: seq<(string, Frame)>, tables: seq<(string, Frame)>)

  /** One entry of the dictionary `read_file` returns. */
  datatype PyRecord = PyRecord(columnNames: seq<string>, columnLength: nat, rowContents: seq<PyRow>, rowLength: nat)

  /** The lengths a record states are those of the lists it holds. */
  predicate Consistent(r: PyRecord)
  {
    r.columnLength == |r.columnNames| && r.rowLength == |r.rowContents|
  }

  /** The record built for one frame. */
  function RecordOf(f: Frame): (r: PyRecord)
    ensures Consistent(r) && r.columnNames == f.columns && r.rowContents == f.rows
  {
    PyRecord(f.columns, |f.columns|, f.rows, |f.rows|)
  }

  /** `s.endswith(suffix)`: exact, case-sensitive. */
  predicate EndsWith(s: string, suffix: string)
  {
    |suffix| <= |s| && s[|s| - |suffix|..] == suffix
  }

  /** The assignments `datas[name] = {…}` for a run of named frames, in order. */
  function RecordEntries(frames: seq<(string, Frame)>): (es: seq<(string, PyRecord)>)
    ensures |es| == |frames|
    ensures forall i :: 0 <= i < |frames| ==> es[i] == (frames[i].0, RecordOf(frames[i].1))
  {
    seq(|frames|, i requires 0 <= i < |frames| => (frames[i].0, RecordOf(frames[i].1)))
  }

  /** `read_file`: dispatch on the exact suffix; any other name yields an empty dictionary. */
  function ReadFile(file: string, source: PySource): (datas: OrderedMap.OMap<PyRecord>)
    ensures !EndsWith(file, ".csv") && !EndsWith(file, ".xlsx") && !EndsWith(file, ".db") ==> datas == []
    ensures EndsWith(file, ".csv") ==> datas == [("csv_data", RecordOf(source.csv))]
    ensures EndsWith(file, ".xlsx") ==> datas == OrderedMap.PutAll([], RecordEntries(source.sheets))
    ensures EndsWith(file, ".db") ==> datas == OrderedMap.PutAll([], RecordEntries(source.tables))
    ensures forall i :: 0 <= i < |datas| ==> Consistent(datas[i].1)
  {
    SuffixesExclusive(file);
    if EndsWith(file, ".csv") then
      [("csv_data", RecordOf(source.csv))]
    else if EndsWith(file, ".xlsx") then
      StoredConsistent(source.sheets);
      OrderedMap.PutAll([], RecordEntries(source.sheets))
    else if EndsWith(file, ".db") then
      StoredConsistent(source.tables);
      OrderedMap.PutAll([], RecordEntries(source.tables))
    else
      []
  }

  /** A name ends with at most one of the suffixes the reader knows: their last characters differ. */
  lemma SuffixesExclusive(file: string)
    ensures EndsWith(file, ".xlsx") ==> !EndsWith(file, ".csv") && !EndsWith(file, ".db")
    ensures EndsWith(file, ".db") ==> !EndsWith(file, ".csv")
  {
    if EndsWith(file, ".xlsx") {
      assert file[|file| - 1] == 'x';
    }
    if EndsWith(file, ".db") {
      assert file[|file| - 1] == 'b';
    }
  }

  /** Every record stored by a run of assignments states its lengths correctly. */
  lemma StoredConsistent(frames: seq<(string, Frame)>)
    ensures forall i :: 0 <= i < |OrderedMap.PutAll([], RecordEntries(frames))| ==> Consistent(OrderedMap.PutAll([], RecordEntries(frames))[i].1)
  {
    OrderedMap.PutAllPreserves([], RecordEntries(frames), Consistent);
  }

  /** A workbook's dictionary is keyed by exactly its sheet names. */
  lemma WorkbookKeys(file: string, source: PySource, k: string)
    requires EndsWith(file, ".xlsx")
    ensures k in OrderedMap.Keys(ReadFile(file, source)) <==> exists i :: 0 <= i < |source.sheets| && source.sheets[i].0 == k
  {
    var es := RecordEntries(source.sheets);
    OrderedMap.PutAllKeys(es, k);
    if k in OrderedMap.Keys(es) {
      var i :| 0 <= i < |es| && OrderedMap.Keys(es)[i] == k;
      assert source.sheets[i].0 == k;
    }
    if exists i :: 0 <= i < |source.sheets| && source.sheets[i].0 == k {
      var i :| 0 <= i < |source.sheets| && source.sheets[i].0 == k;
      assert OrderedMap.Keys(es)[i] == k;
    }
  }

  /** The reader is case-sensitive and knows neither `.sqlite` nor `.sql`: such files give an empty dictionary. */
  lemma UnreadSuffixes(base: string, source: PySource)
    ensures ReadFile(base + ".sqlite", source) == []
    ensures ReadFile(base + ".sql", source) == []
    ensures ReadFile(base + ".CSV", source) == []
  {
    var a, b, c := base + ".sqlite", base + ".sql", base + ".CSV";
    assert a[|a| - 1] == 'e' && a[|a| - 2] == 't';
    assert b[|b| - 1] == 'l' && b[|b| - 3] == 's';
    assert c[|c| - 1] == 'V' && c[|c| - 3] == 'C';
  }

  const ContextHead := "Data structure:\n"

  /** `', '.join(str(col) for col in names)`. */
  function JoinNames(names: seq<string>): string
  {
    Text.Join(names, ", ")
  }

  /** One sample line, numbered from 1. */
  function ContextRow(index: nat, row: PyRow, repr: PyRow -> string): string
  {
    "Row " + Text.NatToString(index + 1) + ": " + repr(row) + "\n"
  }

  /** The sample lines for the first three rows a record holds. */
  function ContextRows(rows: seq<PyRow>, repr: PyRow -> string): (r: string)
  {
    var shown := Take(rows, 3);
    Text.Concat(seq(|shown|, i requires 0 <= i < |shown| => ContextRow(i, shown[i], repr)))
  }

  /** The text for one record: name, column count and names, row count, and a sample only when the stated row count is positive. */
  function RecordBlock(name: string, r: PyRecord, repr: PyRow -> string): string
  {
    "\nTable/Sheet: " + name + "\n"
      + "Columns (" + Text.NatToString(r.columnLength) + "): " + JoinNames(r.columnNames) + "\n"
      + "Number of rows: " + Text.NatToString(r.rowLength) + "\n"
      + (if r.rowLength > 0 then "Sample data (first 3 rows):\n" + ContextRows(r.rowContents, repr) else "")
  }

  /** `create_data_context`: the heading, then one block per record in dictionary order. */
  function CreateDataContext(data: OrderedMap.OMap<PyRecord>, repr: PyRow -> string): (context: string)
    ensures |context| >= |ContextHead| && context[..|ContextHead|] == ContextHead
  {
    if |data| == 0 then ContextHead
    else
      var before := CreateDataContext(data[..|data| - 1], repr);
      var r := before + RecordBlock(data[|data| - 1].0, data[|data| - 1].1, repr);
      assert r[..|ContextHead|] == before[..|ContextHead|];
      r
  }

  /** Adding a record adds its block after the blocks of every earlier record. */
  lemma ContextAppend(data: OrderedMap.OMap<PyRecord>, name: string, r: PyRecord, repr: PyRow -> string)
    ensures CreateDataContext(data + [(name, r)], repr) == CreateDataContext(data, repr) + RecordBlock(name, r, repr)
  {
    assert (data + [(name, r)])[..|data|] == data;
  }

  /** A record that states no rows ends with its row count and shows none of the rows it holds. */
  lemma NoSampleWithoutRows(name: string, r: PyRecord, rows: seq<PyRow>, repr: PyRow -> string)
    requires r.rowLength == 0
    ensures EndsWith(RecordBlock(name, r, repr), "Number of rows: 0\n")
    ensures RecordBlock(name, r, repr) == RecordBlock(name, r.(rowContents := rows), repr)
  {
    var block := RecordBlock(name, r, repr);
    var head := "\nTable/Sheet: " + name + "\n"
      + "Columns (" + Text.NatToString(r.columnLength) + "): " + JoinNames(r.columnNames) + "\n";
    assert Text.NatToString(0) == "0";
    assert block == head + "Number of rows: 0\n";
  }

  /** Rows after the third never reach the context. */
  lemma ContextUsesFirstThree(rows: seq<PyRow>, more: seq<PyRow>, repr: PyRow -> string)
    requires |rows| >= 3
    ensures ContextRows(rows + more, repr) == ContextRows(rows, repr)
  {
    assert Take(rows + more, 3) == Take(rows, 3);
  }
}
