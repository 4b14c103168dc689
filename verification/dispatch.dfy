/**
 * `parseFile` in DataBase-Analyser/server/dbParser.js: the extension of the
 * uploaded file's path, lower-cased, picks one of four readers; anything
 * else is rejected. The extension is Node's POSIX `path.extname`, modelled
 * here both as the right-to-left scan Node performs and as a declarative
 * definition over the path's last component.
 */
module Dispatch {
  import opened Wrappers
  import opened Schema
  import Text
  import Tabular
  import SqliteParser
  import SqlDump
  import OrderedMap

  /** The length of `p` once trailing `/` characters are dropped. */
  function TrimmedEnd(p: string): (e: nat)
    ensures e <= |p|
    ensures forall k :: e <= k < |p| ==> p[k] == '/'
    ensures e > 0 ==> p[e - 1] != '/'
  {
    if |p| == 0 || p[|p| - 1] != '/' then |p| else TrimmedEnd(p[..|p| - 1])
  }

  /** Where the last path component of `p[..e]` begins: just after its last `/`, or at 0. */
  function ComponentStart(p: string, e: nat): (a: nat)
    requires e <= |p|
    ensures a <= e
    ensures a > 0 ==> p[a - 1] == '/'
    ensures forall k :: a <= k < e ==> p[k] != '/'
  {
    if e == 0 || p[e - 1] == '/' then e else ComponentStart(p, e - 1)
  }

  /** The index of the last `.` in `p[a..e]`, or -1 when there is none. */
  function LastDot(p: string, a: nat, e: nat): (d: int)
    requires a <= e <= |p|
    ensures d == -1 || a <= d < e
    ensures d == -1 ==> forall k :: a <= k < e ==> p[k] != '.'
    ensures d >= 0 ==> p[d] == '.' && forall k :: d < k < e ==> p[k] != '.'
    decreases e - a
  {
    if a == e then -1
    else
      var r := LastDot(p, a + 1, e);
      if r >= 0 then r else if p[a] == '.' then a else -1
  }

  /**
   * `path.extname`: from the last `.` of the last component to the end of
   * that component (trailing slashes ignored), or empty when the component
   * has no `.`, when that `.` is its first character, or when it is `..`.
   */
  function Extension(p: string): (ext: string)
    ensures ext == "" || (ext[0] == '.' && forall k :: 1 <= k < |ext| ==> ext[k] != '.' && ext[k] != '/')
  {
    var e := TrimmedEnd(p);
    var a := ComponentStart(p, e);
    var d := LastDot(p, a, e);
    if d < 0 || d == a || (p[a] == '.' && d == e - 1 && d == a + 1) then "" else p[d..e]
  }

  /**
   * Node's scan, right to left, with its state variables: `end` is one past
   * the last non-slash character, `startDot` the last dot seen and
   * `preDotState` records what lies before that dot (0: nothing, 1: a dot,
   * -1: another character). It stops at the `/` before the last component.
   */
  method ExtName(path: string) returns (ext: string)
    ensures ext == Extension(path)
  {
    var startDot := -1;
    var startPart := 0;
    var end := -1;
    var matchedSlash := true;
    var preDotState := 0;
    var i := |path| - 1;
    var L := TrimmedEnd(path);
    while i >= 0
      invariant -1 <= i < |path|
      invariant matchedSlash <==> end == -1
      invariant end == -1 ==> startDot == -1 && preDotState == 0
      invariant end == -1 ==> forall k :: i < k < |path| ==> path[k] == '/'
      invariant end != -1 ==> end == L && i < L
      invariant end != -1 ==> forall k :: i < k < L ==> path[k] != '/'
      invariant end != -1 ==> startDot == LastDot(path, i + 1, L)
      invariant end != -1 ==> preDotState == (if startDot == -1 || startDot == i + 1 then 0 else if path[i + 1] == '.' then 1 else -1)
      invariant startPart == 0
      decreases i
    {
      var code := path[i];
      if code == '/' {
        if !matchedSlash {
          startPart := i + 1;
          break;
        }
        i := i - 1;
        continue;
      }
      if end == -1 {
        matchedSlash := false;
        end := i + 1;
      }
      if code == '.' {
        if startDot == -1 {
          startDot := i;
        } else if preDotState != 1 {
          preDotState := 1;
        }
      } else if startDot != -1 {
        preDotState := -1;
      }
      i := i - 1;
    }
    if startDot == -1 || end == -1 || preDotState == 0 || (preDotState == 1 && startDot == end - 1 && startDot == startPart + 1) {
      return "";
    }
    return path[startDot..end];
  }

  /** The component start is pinned down by its description. */
  lemma ComponentStartIs(p: string, e: nat, a: nat)
    requires a <= e <= |p|
    requires a == 0 || p[a - 1] == '/'
    requires forall k :: a <= k < e ==> p[k] != '/'
    ensures ComponentStart(p, e) == a
  {
  }

  /** The last dot is pinned down by its description. */
  lemma LastDotIs(p: string, a: nat, e: nat, d: nat)
    requires a <= d < e <= |p| && p[d] == '.'
    requires forall k :: d < k < e ==> p[k] != '.'
    ensures LastDot(p, a, e) == d
  {
  }

  /** A last component running from `a` to the end, with its last dot at `d` and something other than a dot before it, has extension `p[d..]`. */
  lemma ExtensionAt(p: string, a: nat, d: nat, k: nat)
    requires a <= k < d < |p| && p[d] == '.' && p[k] != '.'
    requires a == 0 || p[a - 1] == '/'
    requires forall i :: a <= i < d ==> p[i] != '/'
    requires forall i :: d < i < |p| ==> p[i] != '/' && p[i] != '.'
    ensures Extension(p) == p[d..]
  {
    assert TrimmedEnd(p) == |p|;
    ComponentStartIs(p, |p|, a);
    LastDotIs(p, a, |p|, d);
  }

  /** A file whose last component is `base.e`, with something other than dots in `base`, has extension `.e`. */
  lemma ExtensionOfName(dir: string, base: string, e: string, k: nat)
    requires dir == "" || dir[|dir| - 1] == '/'
    requires forall i :: 0 <= i < |base| ==> base[i] != '/'
    requires forall i :: 0 <= i < |e| ==> e[i] != '/' && e[i] != '.'
    requires k < |base| && base[k] != '.'
    ensures Extension(dir + base + "." + e) == "." + e
  {
    var p := dir + base + "." + e;
    var a, d := |dir|, |dir| + |base|;
    assert p[d] == '.' && p[a + k] == base[k];
    forall i | d < i < |p| ensures p[i] != '/' && p[i] != '.' {
      assert p[i] == e[i - d - 1];
    }
    forall i | a <= i < d ensures p[i] != '/' {
      assert p[i] == base[i - a];
    }
    if a > 0 {
      assert p[a - 1] == dir[a - 1];
    }
    ExtensionAt(p, a, d, a + k);
    assert p[d..] == "." + e;
  }

  /** A component that begins with its only dot, like `.csv`, has no extension. */
  lemma HiddenFileHasNoExtension(dir: string, e: string)
    requires dir == "" || dir[|dir| - 1] == '/'
    requires forall i :: 0 <= i < |e| ==> e[i] != '/' && e[i] != '.'
    ensures Extension(dir + "." + e) == ""
  {
    var p := dir + "." + e;
    var d := |dir|;
    assert p[d] == '.';
    assert p[|p| - 1] != '/' by {
      if |e| > 0 { assert p[|p| - 1] == e[|e| - 1]; }
    }
    assert forall i :: d < i < |p| ==> p[i] != '/' && p[i] != '.' by {
      forall i | d < i < |p| ensures p[i] != '/' && p[i] != '.' { assert p[i] == e[i - d - 1]; }
    }
    assert d > 0 ==> p[d - 1] == '/' by {
      if d > 0 { assert p[d - 1] == dir[d - 1]; }
    }
    ComponentStartIs(p, |p|, d);
    LastDotIs(p, d, |p|, d);
  }

  /** The four readers `parseFile` dispatches to. */
  datatype Format = SqliteFormat | CsvFormat | ExcelFormat | SqlFormat

  /** The closed switch on an already lower-cased extension. */
  function FormatOf(ext: string): Option<Format>
  {
    match ext
    case ".db" => Some(SqliteFormat)
    case ".sqlite" => Some(SqliteFormat)
    case ".csv" => Some(CsvFormat)
    case ".xlsx" => Some(ExcelFormat)
    case ".sql" => Some(SqlFormat)
    case _ => None
  }

  /** The extensions the server accepts, with their dot. */
  const ServerExtensions: seq<string> := [".db", ".sqlite", ".csv", ".xlsx", ".sql"]

  /** Exactly the five listed extensions are accepted; `.db` and `.sqlite` share a reader and the other three each have their own. */
  lemma FormatOfAccepts(ext: string)
    ensures FormatOf(ext).Some? <==> ext in ServerExtensions
    ensures FormatOf(ext) == Some(SqliteFormat) <==> ext == ".db" || ext == ".sqlite"
    ensures FormatOf(ext) == Some(CsvFormat) <==> ext == ".csv"
    ensures FormatOf(ext) == Some(ExcelFormat) <==> ext == ".xlsx"
    ensures FormatOf(ext) == Some(SqlFormat) <==> ext == ".sql"
  {
  }

  /**
   * What the decoding libraries would deliver for the file at the path:
   * the SQLite engine's view of it, csv-parser's rows, the xlsx workbook's
   * sheets and the UTF-8 text, each with the failure it would raise. Only
   * the one `parseFile` picks is looked at.
   */
  datatype Decoded = Decoded(
    sqlite: SqliteParser.SqliteFile,
    csvRows: Result<seq<Row>>,
    workbook: Result<seq<Tabular.Sheet>>,
    sqlText: Result<string>)

  /** `parseFile`: lower-case the extension, then dispatch or throw `Unsupported file format: <ext>`. */
  method ParseFile(path: string, decoded: Decoded) returns (r: Result<Database>)
    ensures FormatOf(Text.ToLower(Extension(path))).None? ==>
      r == Failure("Unsupported file format: " + Text.ToLower(Extension(path)))
    ensures FormatOf(Text.ToLower(Extension(path))) == Some(CsvFormat) ==> r == Tabular.ParseCsv(decoded.csvRows)
    ensures FormatOf(Text.ToLower(Extension(path))) == Some(ExcelFormat) ==> r == Tabular.ParseExcel(decoded.workbook)
    ensures FormatOf(Text.ToLower(Extension(path))) == Some(SqlFormat) ==> r == SqlDump.ParseSqlFile(decoded.sqlText)
    ensures FormatOf(Text.ToLower(Extension(path))) == Some(SqliteFormat) && decoded.sqlite.openError.Some? ==>
      r == Failure("Error opening SQLite database: " + decoded.sqlite.openError.value)
    ensures FormatOf(Text.ToLower(Extension(path))) == Some(SqliteFormat) && decoded.sqlite.openError.None? && decoded.sqlite.listError.Some? ==>
      r == Failure("Error retrieving tables: " + decoded.sqlite.listError.value)
    ensures FormatOf(Text.ToLower(Extension(path))) == Some(SqliteFormat) && decoded.sqlite.openError.None? && decoded.sqlite.listError.None? && r.Failure? ==>
      SqliteParser.FirstFailure(SqliteParser.UserTables(decoded.sqlite.master), r.error)
    ensures FormatOf(Text.ToLower(Extension(path))) == Some(SqliteFormat) ==>
      (r.Success? <==> decoded.sqlite.openError.None? && decoded.sqlite.listError.None?
                       && forall t :: t in SqliteParser.UserTables(decoded.sqlite.master) ==> SqliteParser.Loadable(t))
    ensures FormatOf(Text.ToLower(Extension(path))) == Some(SqliteFormat) && r.Success? ==>
      r.value.tables == OrderedMap.PutAll([], SqliteParser.Entries(SqliteParser.UserTables(decoded.sqlite.master)))
  {
    var raw := ExtName(path);
    var extension := Text.ToLower(raw);
    match FormatOf(extension)
    case None =>
      r := Failure("Unsupported file format: " + extension);
    case Some(SqliteFormat) =>
      r := SqliteParser.ParseSqliteFile(decoded.sqlite);
    case Some(CsvFormat) =>
      r := Tabular.ParseCsv(decoded.csvRows);
    case Some(ExcelFormat) =>
      r := Tabular.ParseExcel(decoded.workbook);
    case Some(SqlFormat) =>
      r := SqlDump.ParseSqlFile(decoded.sqlText);
  }
}
