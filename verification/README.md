# DataBase-Analyser core in Dafny

DataBase-Analyser lets a user upload a database artefact and ask questions about it.
The artefact can be a SQLite file, a CSV file, an Excel workbook or a SQL dump.
The server turns each upload into one uniform shape:
`{ tables: { name → { schema, sampleData, rowCount } } }`.
Text describing that shape then goes into an assistant's prompt.

This project models the pure logic around that shape and proves its properties:

- **Format dispatch** (`dispatch.dfy`). `parseFile` lower-cases `path.extname` and switches on it. The model includes Node's right-to-left extname scan, checked against a declarative definition.
- **Browser-side helpers** (`client_files.dfy`). These are `getFileExtension` with its `>>> 0` wrap-around, `isSupportedDatabaseFile`, and the branches of `getFilePreview`.
- **SQLite shaping** (`sqlite_parser.dfy`).
  - The `PRAGMA table_info` rows become columns.
  - The catalog query keeps user tables.
  - The per-table loop is all-or-nothing.
- **CSV and workbook shaping** (`tabular.dfy`). The CSV reader gives one `csv_data` table. The workbook reader gives one table per sheet.
- **SQL dump extraction** (`sql_dump.dfy`, `global_scan.dfy`, `sql_dump_text.dfy`).
  - The statement and column regular expressions are written out as a scanner that follows the regular-expression engine's choices.
  - The `g`-flag `exec` loop is a generic leftmost-match iteration.
  - Round-trip lemmas show that well-formed `CREATE TABLE` text reads back as exactly its columns.
- **Prompt summaries** (`summary.dfy`, `py_reader.dfy`).
  - `formatDatabaseSummary` in the Node server.
  - `read_file` and `create_data_context` in the Python service.
- **Query gate** (`query_gate.dfy`). `preprocess_user_query` accepts or refuses a question by keyword containment.
- **Disconnect clean-up** (`sessions.dfy`). When a socket leaves, the handler decides which uploaded files and cache entries go, then forgets the session.

The remaining modules are shared support:

- `wrappers.dfy` holds `Option` and `Result`.
- `text.dfy` holds character classes, ASCII case, substring search and decimal rendering.
- `ordered_map.dfy` is an insertion-ordered association list. It stands for a JavaScript object or a Python dict used as a map.
- `schema.dfy` holds the uniform shape.

What the model takes as inputs rather than computing:

- The decoding libraries are not modelled. Their outputs are inputs: the SQLite engine's catalog and query answers, csv-parser's row objects, the xlsx and pandas frames, and the UTF-8 text of a dump.
- `JSON.stringify(row)` and Python's `str(row)` are function parameters.
- Whether `fs.unlink` succeeds is also a function parameter.

Behaviours of the code worth knowing:

- **The SQL dump column pattern runs across the whole statement body.** The loop searches the body as one text, so `id INTEGER PRIMARY KEY` reads as two columns, `id`/`INTEGER` and `PRIMARY`/`KEY`. A dump column never has an `isPrimaryKey` property.
- **The lazy statement body ends at the first `);`.** A `);` inside a column definition, such as in a default value, cuts the statement short there.
- **CSV and sheet columns have no `isPrimaryKey` property.** The summary reads the missing property as false.
- **The SQLite catalog filter `NOT LIKE 'sqlite_%'` drops some user tables.** `_` is a LIKE wildcard and LIKE ignores ASCII case, so any table whose name starts with `sqlite` in any case and has a seventh character is dropped, `SQLiteData` among them.

## Model

| member | source | states |
|---|---|---|
| Dispatch.Extension | DataBase-Analyser/server/dbParser.js:19 | `path.extname` of a POSIX path is empty or a dot followed by characters that are neither dots nor slashes |
| Dispatch.ExtName | DataBase-Analyser/server/dbParser.js:19 | Node's right-to-left scan, with its `startDot`/`preDotState` state, computes exactly the declarative extension |
| Dispatch.ExtensionAt | DataBase-Analyser/server/dbParser.js:19 | when the last component has its last dot after some other character, the extension runs from that dot to the end |
| Dispatch.ExtensionOfName | DataBase-Analyser/server/dbParser.js:19 | a last component `base.e`, where `base` has a non-dot character, has extension `.e`, whatever the directory |
| Dispatch.HiddenFileHasNoExtension | DataBase-Analyser/server/dbParser.js:19 | a last component that starts with its only dot, like `.csv`, has no extension |
| Dispatch.FormatOfAccepts | DataBase-Analyser/server/dbParser.js:21-32 | the switch accepts exactly `.db`, `.sqlite`, `.csv`, `.xlsx` and `.sql`; `.db` and `.sqlite` share the SQLite reader and each other extension has its own reader |
| Dispatch.ParseFile | DataBase-Analyser/server/dbParser.js:18-33 | the extension is lower-cased, then the matching reader's result is returned: the CSV, Excel and SQL readers' results exactly, and for SQLite the open-error and catalog-error rejections, the first failing table's step error, or every user table; any other extension fails with `Unsupported file format: <ext>` |
| ClientFiles.ToUint32 | DataBase-Analyser/src/utils/dbParser.js:12 | `>>> 0` gives a value below 2^32 that is congruent to its operand modulo 2^32 |
| ClientFiles.LastIndexOfDot | DataBase-Analyser/src/utils/dbParser.js:12 | `lastIndexOf(".")` is -1 or the index of a dot, and no dot follows it |
| ClientFiles.SliceStart | DataBase-Analyser/src/utils/dbParser.js:12 | the slice starts one past a dot at index 1 or later; it wraps to 2^32 + 1 for a dot at index 0 and to 2^32 for no dot |
| ClientFiles.ExtensionAfterLastDot | DataBase-Analyser/src/utils/dbParser.js:11-13 | the extension is the text after the last dot when that dot is not the first character, and empty otherwise; it never contains a dot |
| ClientFiles.LastExtensionOnly | DataBase-Analyser/src/utils/dbParser.js:12 | `a.tar.gz` has extension `gz` |
| ClientFiles.IsSupportedDatabaseFile | DataBase-Analyser/src/utils/dbParser.js:11-27 | false without a file; otherwise true exactly when the name's last dot is not its first character and the text after that dot, lower-cased, is one of db, sqlite, sql, csv, xlsx |
| ClientFiles.SupportedByLastDot | DataBase-Analyser/src/utils/dbParser.js:11-27 | a supported lower-cased extension is the same as a supported lower-cased text after a last dot that is not the name's first character |
| ClientFiles.DottedMember | DataBase-Analyser/src/utils/dbParser.js:24 | the browser's five extensions are the server's five with the dot removed |
| ClientFiles.ClientServerExtension | DataBase-Analyser/src/utils/dbParser.js:11-13 | for a file name without `/`, the browser's extension is the server's `path.extname` without its dot |
| ClientFiles.ClientAgreesWithServer | DataBase-Analyser/src/utils/dbParser.js:20-27 | the browser accepts a plain file name exactly when the server's dispatch has a reader for `path.extname` of that same name |
| ClientFiles.StoredExtension | DataBase-Analyser/server.js:63-65 | the extension of multer's stored path `<dir><time>-<name>` is the name from its last dot on, even a dot at the name's start, and empty when the name has no dot |
| ClientFiles.StoredNameAgrees | DataBase-Analyser/server.js:63-65 | for a name whose last dot is not its first character, the browser accepts the file exactly when the server's dispatch on the stored path has a reader |
| ClientFiles.AgreesFromLastDot | DataBase-Analyser/src/utils/dbParser.js:11-27 | the browser accepts a name exactly when the server accepts the text from the name's last dot on, when that dot is not the first character |
| ClientFiles.HiddenNameDisagrees | DataBase-Analyser/server.js:63-65 | a file named `.csv` is refused by the browser, while the server's dispatch would read its stored copy as CSV |
| ClientFiles.FilePreview | DataBase-Analyser/src/utils/dbParser.js:35-52 | `No file selected` without a file; for `sql`/`csv`, the decoded first 2048 bytes, or the fixed error text when decoding fails; for anything else, the `Binary file format (<ext>)` message |
| ClientFiles.PreviewReadsPrefixOnly | DataBase-Analyser/src/utils/dbParser.js:44 | files that agree on their first 2048 bytes have the same preview |
| ClientFiles.BinaryPreviewIgnoresContents | DataBase-Analyser/src/utils/dbParser.js:52 | the preview of a file that is not `sql`/`csv` depends neither on its bytes nor on the reader |
| SqliteParser.ColumnOf | DataBase-Analyser/server/dbParser.js:110-116 | a catalog row keeps its name, type and default; it is NOT NULL iff `notnull` is 1 and flagged primary key iff `pk` is exactly 1 |
| SqliteParser.SchemaOf | DataBase-Analyser/server/dbParser.js:110 | the schema has one column per catalog row, in catalog order |
| SqliteParser.CompositeKeyFlagsFirstOnly | DataBase-Analyser/server/dbParser.js:115 | in a composite key, a column numbered 2 or higher is not flagged |
| SqliteParser.UserTables | DataBase-Analyser/server/dbParser.js:53 | the catalog query keeps exactly the objects of type `table` whose name is not LIKE `sqlite_%` |
| SqliteParser.UnderscoreIsAWildcard | DataBase-Analyser/server/dbParser.js:53 | `SQLite` followed by any character, such as `SQLiteData`, is filtered out too |
| SqliteParser.StepError | DataBase-Analyser/server/dbParser.js:66-73 | a table's three steps report no error exactly when all three succeed |
| SqliteParser.TableOf | DataBase-Analyser/server/dbParser.js:67-80 | a table's record has the catalog schema and counts every row; its sample is the first min(5, count) rows |
| SqliteParser.LoadTables | DataBase-Analyser/server/dbParser.js:61-88 | the loop succeeds iff every table's steps succeed, and then stores every table under its name; otherwise it rejects with the message of the first failing table and returns no map |
| SqliteParser.ParseSqliteFile | DataBase-Analyser/server/dbParser.js:41-93 | an open error or a catalog error rejects with its message; otherwise it succeeds iff every user table loads, storing every table under its name with a bounded sample, and it rejects with the step error of the first table that fails |
| SqliteParser.SqliteTablesFollowCatalog | DataBase-Analyser/server/dbParser.js:63-81 | with distinct table names, the table map lists the tables once each, in catalog order |
| Tabular.HeaderColumns | DataBase-Analyser/server/dbParser.js:177-186 | the schema is one TEXT, nullable column per property of the first row, in order; it is empty when there are no rows |
| Tabular.ParseCsv | DataBase-Analyser/server/dbParser.js:167-200 | an error of the csv-parser stream rejects with `Error reading CSV file:`; otherwise there is exactly one table, `csv_data`, whose schema is the first row's headers, which counts every row and samples the first min(5, n); no rows gives an empty table |
| Tabular.SheetTableIsCsvShaping | DataBase-Analyser/server/dbParser.js:217-235 | both branches of the sheet loop agree with the CSV shaping, the empty-sheet branch included |
| Tabular.SheetTablesShape | DataBase-Analyser/server/dbParser.js:213-237 | the sheet loop's map is keyed by exactly the sheet names, has distinct keys and bounded samples |
| Tabular.ParseExcel | DataBase-Analyser/server/dbParser.js:207-243 | an unreadable workbook rejects with `Error parsing Excel file:`; otherwise every sheet, and nothing else, gets a table under its name |
| Tabular.ExcelTablesFollowWorkbook | DataBase-Analyser/server/dbParser.js:213-237 | with distinct sheet names, the tables are the sheets, one each, in workbook order |
| Tabular.EmptySheetKept | DataBase-Analyser/server/dbParser.js:229-235 | an empty sheet is kept as a table with no schema, no sample and a count of 0 |
| Schema.Take | DataBase-Analyser/server/dbParser.js:187 | `slice(0, n)` is the prefix of length min(n, length) |
| SqlDump.FindTerminator | DataBase-Analyser/server/dbParser.js:255 | a terminator found lies at or after the start and is a `);` |
| SqlDump.TerminatorFirst | DataBase-Analyser/server/dbParser.js:255 | the lazy body stops at the first `);`; when none is found, there is no `);` after the start |
| SqlDump.MatchCreateAt | DataBase-Analyser/server/dbParser.js:255 | a statement match starts where it is tried, captures a word as the name and ends just after a `);` |
| SqlDump.MatchedBodyUnterminated | DataBase-Analyser/server/dbParser.js:255 | a captured body never contains `);` |
| SqlDump.CreateMatches | DataBase-Analyser/server/dbParser.js:255-259 | the `exec` loop reports statement matches left to right without overlap; it reports none exactly when the pattern matches nowhere |
| SqlDump.CreateMatchesComplete | DataBase-Analyser/server/dbParser.js:255-259 | no statement match is skipped: the pattern matches nowhere before the first match, between two consecutive matches, or after the last |
| SqlDump.CloseParenFirst | DataBase-Analyser/server/dbParser.js:264 | the lazy size group `\(.*?\)` closes at the first `)`, with no line break before it |
| SqlDump.SizeEnd | DataBase-Analyser/server/dbParser.js:264 | the optional size group, when taken, runs from `(` to `)` |
| SqlDump.NullabilityAt | DataBase-Analyser/server/dbParser.js:264 | the nullability capture is the text just read and is `NOT NULL` or `NULL` in any case |
| SqlDump.DefaultAt | DataBase-Analyser/server/dbParser.js:264 | a default capture is non-empty, is the text just read and contains no comma |
| SqlDump.MatchColumnAt | DataBase-Analyser/server/dbParser.js:264 | a column match starts where it is tried, is not empty, and captures a word name and a word type |
| SqlDump.ColumnMatches | DataBase-Analyser/server/dbParser.js:264-268 | the column loop reports matches left to right without overlap, each one the pattern's match at its start; it reports none exactly when the pattern matches nowhere in the body |
| SqlDump.ColumnMatchesComplete | DataBase-Analyser/server/dbParser.js:264-268 | no column match is skipped: the pattern matches nowhere before the first match, between two consecutive matches, or after the last |
| SqlDump.ColumnOfMatch | DataBase-Analyser/server/dbParser.js:269-274 | a column keeps the captured name, type and default; it is NOT NULL only for the exact upper-case capture `NOT NULL`; it has no primary-key property |
| SqlDump.StatementTable | DataBase-Analyser/server/dbParser.js:277-281 | a dump table has no sample rows and a row count of 0 |
| SqlDump.StatementNames | DataBase-Analyser/server/dbParser.js:260 | one name per statement match, in text order, each a word |
| SqlDump.DumpTablesShape | DataBase-Analyser/server/dbParser.js:255-284 | the table map has distinct keys, exactly the statement names, word keys and schema-only tables |
| SqlDump.ParseSqlFile | DataBase-Analyser/server/dbParser.js:250-288 | a read error rejects with `Error parsing SQL file:`; otherwise the tables are the statement table map of the text, keyed by exactly the statement names, distinct words, and schema-only |
| SqlDump.LastDefinitionWins | DataBase-Analyser/server/dbParser.js:277 | a name defined twice keeps the table of its last statement |
| SqlDump.NoTerminatorNoTables | DataBase-Analyser/server/dbParser.js:256-284 | a text without `);` yields an empty table map, not an error |
| GlobalScan.Leftmost | DataBase-Analyser/server/dbParser.js:259 | one `exec` reports the leftmost match at or after `lastIndex`, or none when nothing matches from there |
| GlobalScan.AllMatches | DataBase-Analyser/server/dbParser.js:259 | the `g`-flag loop reports matches in order without overlap; it reports none exactly when nothing matches |
| GlobalScan.NoneSkippedBefore | DataBase-Analyser/server/dbParser.js:259 | the pattern matches nowhere between `lastIndex` and the first match reported |
| GlobalScan.NoneSkippedBetween | DataBase-Analyser/server/dbParser.js:259 | the pattern matches nowhere between the end of one match reported and the start of the next |
| GlobalScan.NoneSkippedAfter | DataBase-Analyser/server/dbParser.js:259 | the pattern matches nowhere from the end of the last match reported to the end of the text |
| GlobalScan.MatchesFromAnchor | DataBase-Analyser/server/dbParser.js:259 | a match right at `lastIndex` comes first, and the search resumes at its end |
| GlobalScan.SeparatedMatches | DataBase-Analyser/server/dbParser.js:268 | when matches follow each other, separated by one non-matching character, the loop reports exactly those matches |
| SqlDumpText.CreateRoundTrip | DataBase-Analyser/server/dbParser.js:255 | a well-formed statement anywhere in a text is matched whole at its first character, with its name and body |
| SqlDumpText.SingleStatementDump | DataBase-Analyser/server/dbParser.js:255-284 | a text that is one well-formed statement yields one table: its name, the schema read from its body, no sample, count 0 |
| SqlDumpText.ColumnRoundTrip | DataBase-Analyser/server/dbParser.js:264 | a well-formed column clause followed by a comma or the end is matched whole, with the expected captures |
| SqlDumpText.NoColumnAtComma | DataBase-Analyser/server/dbParser.js:264 | at a comma the column pattern fails |
| SqlDumpText.ClausesFrom | DataBase-Analyser/server/dbParser.js:267-275 | the column loop over comma-separated well-formed clauses reports one match per clause, in order |
| SqlDumpText.BodyRoundTrip | DataBase-Analyser/server/dbParser.js:264-275 | comma-separated well-formed clauses read back as exactly their columns, in order |
| SqlDumpText.StatementRoundTrip | DataBase-Analyser/server/dbParser.js:255-281 | a statement built from well-formed clauses yields one table with exactly those columns |
| SqlDumpText.LowerCaseNotNullIsNullable | DataBase-Analyser/server/dbParser.js:272 | a clause written with lower-case `not null` yields a nullable column |
| SqlDumpText.TrailingWordsReadAsColumn | DataBase-Analyser/server/dbParser.js:264-274 | a two-word definition followed by two more words, the first of which does not start with N or D in either case, reads as two columns, neither a primary key |
| SqlDumpText.PrimaryKeyReadsAsTwoColumns | DataBase-Analyser/server/dbParser.js:264-274 | `id INTEGER PRIMARY KEY` reads as `id`/`INTEGER` and `PRIMARY`/`KEY` |
| Summary.ColumnLineFlags | DataBase-Analyser/server.js:334 | a schema line is `  - name (type)`, then ` PRIMARY KEY` iff the column is flagged, then ` NOT NULL` iff it is NOT NULL, in that order |
| Summary.ColumnsSection | DataBase-Analyser/server.js:331-336 | the `Columns:` section is empty exactly for an empty schema, and otherwise opens with its heading |
| Summary.SampleSection | DataBase-Analyser/server.js:339-344 | the sample section is empty exactly when there are no sample rows |
| Summary.SampleUsesFirstThree | DataBase-Analyser/server.js:341 | rows after the third never reach the summary |
| Summary.TablesSummary | DataBase-Analyser/server.js:324-349 | an empty table map gives the empty summary |
| Summary.DatabaseSummary | DataBase-Analyser/server.js:319-322 | missing data or a missing `tables` gives `No database structure available.` |
| Summary.TableBlockShape | DataBase-Analyser/server.js:327-346 | a block opens with `Table: <name>` and a `Row count:` line that reads back as the count, and it ends with a newline |
| Summary.SummaryAppend | DataBase-Analyser/server.js:326 | blocks follow the map's insertion order: one more table adds its block at the end |
| Summary.FormatDatabaseSummary | DataBase-Analyser/server.js:319-350 | the statement-by-statement loop computes the declarative summary |
| Summary.FormatTable | DataBase-Analyser/server.js:327-346 | the loop body for one table computes that table's block |
| Summary.FormatColumns | DataBase-Analyser/server.js:332-335 | the `forEach` over the schema computes the `Columns:` section |
| Summary.FormatSample | DataBase-Analyser/server.js:340-343 | the `forEach` over the first three rows computes the sample section |
| QueryGate.AnyKeyword | DataBase-Analyser/server/main.py:40 | `any(kw in query …)` holds iff some keyword of the list occurs in the question |
| QueryGate.PreprocessUserQuery | DataBase-Analyser/server/main.py:26-54 | a picture keyword gives `(False, image message)`; otherwise no topic keyword gives `(False, topic message)`; otherwise `(True, "")` |
| QueryGate.TopicsSplit | DataBase-Analyser/server/main.py:39-43 | mentioning one of the 17 topic keywords is mentioning one of the three groups |
| QueryGate.CaseInsensitive | DataBase-Analyser/server/main.py:31 | the verdict does not change when the question is lower-cased first |
| QueryGate.ImageTakesPrecedence | DataBase-Analyser/server/main.py:46-49 | a question with a picture keyword and a topic keyword is refused as a picture request |
| QueryGate.ParagraphIsAPicture | DataBase-Analyser/server/main.py:46 | `paragraph` is refused because it contains `graph` |
| QueryGate.TomorrowIsATopic | DataBase-Analyser/server/main.py:35 | `tomorrow` is accepted because it contains `row` |
| PyReader.RecordOf | DataBase-Analyser/server/main.py:72-77 | a record's stated lengths are those of the lists it holds |
| PyReader.ReadFile | DataBase-Analyser/server/main.py:56-107 | a CSV gives the single `csv_data` record; a workbook gives one record per sheet and a database one record per table, assigned in order; a name without `.csv`, `.xlsx` or `.db` gives an empty dictionary; every record is consistent |
| PyReader.WorkbookKeys | DataBase-Analyser/server/main.py:68-77 | a workbook's dictionary is keyed by exactly its sheet names |
| PyReader.UnreadSuffixes | DataBase-Analyser/server/main.py:59-80 | `.sqlite`, `.sql` and upper-case `.CSV` files give an empty dictionary |
| PyReader.CreateDataContext | DataBase-Analyser/server/main.py:110-125 | the context always starts with `Data structure:` |
| PyReader.ContextAppend | DataBase-Analyser/server/main.py:114-123 | records are described in dictionary order: one more record adds its block at the end |
| PyReader.NoSampleWithoutRows | DataBase-Analyser/server/main.py:117-120 | a record stating no rows ends with `Number of rows: 0` and shows none of the rows it holds |
| PyReader.ContextUsesFirstThree | DataBase-Analyser/server/main.py:122 | rows after the third never reach the context |
| Sessions.TryDelete | DataBase-Analyser/server.js:206-215 | at most the one file goes, and its cache entry goes with it; sessions are untouched |
| Sessions.Disconnect | DataBase-Analyser/server.js:186-260 | the session is forgotten, other sessions are unchanged, files only disappear, and the cache loses exactly the deleted files |
| Sessions.UploadStepsDelete | DataBase-Analyser/server.js:221-255 | the upload loop deletes a name iff it is present, unlinkable, listed, not the active file, and not used by another session |
| Sessions.DisconnectDeletes | DataBase-Analyser/server.js:189-259 | a file is deleted iff it exists, its unlink succeeds, and the leaving session releases it: either it is the active file and no other session has it active, or it is another upload that no other session uses |
| Sessions.UnknownSocketDeletesNothing | DataBase-Analyser/server.js:190-191 | a socket without a session deletes nothing and drops nothing from the cache |
| Sessions.SharedActiveFileKept | DataBase-Analyser/server.js:197-215 | the active file and its cache entry survive while another session has it active |
| Sessions.SharedUploadKept | DataBase-Analyser/server.js:230-250 | an upload other than the active file survives while another session has it active or uploaded |
| Sessions.ActiveCheckIgnoresUploads | DataBase-Analyser/server.js:199-204 | a file another session has only uploaded is still deleted when the session that has it active leaves |
| Sessions.IsActiveElsewhere | DataBase-Analyser/server.js:198-204 | the first search loop finds a hit iff another session has the file active |
| Sessions.IsUsedElsewhere | DataBase-Analyser/server.js:231-239 | the second search loop finds a hit iff another session has the file active or uploaded |
| Sessions.HandleDisconnect | DataBase-Analyser/server.js:186-260 | the handler, statement by statement, leaves the state the declarative clean-up describes |
| OrderedMap.Get | DataBase-Analyser/server.js:190 | a lookup finds a value iff the key is present, and the value is stored under that key |
| OrderedMap.Put | DataBase-Analyser/server/dbParser.js:277 | assigning an existing key keeps its position; a new key goes last; the key then holds the value and no other key changes |
| OrderedMap.GetPutAll | DataBase-Analyser/server/dbParser.js:259-282 | after a run of assignments, a key holds the last value assigned to it |
| OrderedMap.PutAllFresh | DataBase-Analyser/server/dbParser.js:76 | assignments to distinct keys leave the entries in assignment order |
| OrderedMap.PutAllKeys | DataBase-Analyser/server/main.py:70-72 | the keys after a run of assignments are exactly the keys assigned |
| OrderedMap.Remove | DataBase-Analyser/server.js:259 | `delete` removes the key and leaves every other key's value as it was |
| Text.Contains | DataBase-Analyser/server/main.py:40 | `kw in query` holds iff the keyword occurs at some index of the question |
| Text.ParseNatToString | DataBase-Analyser/server.js:328 | a count written in decimal reads back as the same count |

## Left out

- Decoding libraries: sqlite3, csv-parser, xlsx and pandas are foreign code. Their outputs (catalog rows, query answers, row objects, frames, sheets) are inputs, and their failures are `Failure` values or error fields.
- SQL execution: `PRAGMA table_info`, `SELECT … LIMIT 5` and `COUNT(*)` are not executed. The sample is taken as the first five rows in the engine's scan order, and the count as the number of rows. Interpolating the table name into those queries is not modelled.
- Server plumbing other than the disconnect handler is not modelled: Express routes, multer storage, Socket.IO events, CORS and the serverless export are transport and I/O.
- Asynchrony: each parse and each disconnect is one atomic step. Promise sequencing, concurrent cache access and other sessions changing during an `await` are not modelled.
- Assistant calls: the Gemini and ollama requests are network I/O. Only the prompt texts are modelled.
- Row rendering: `JSON.stringify(row)` and Python's `str(row)` are function parameters.
- `formatFileSize` uses floating-point `Math.log` and `toFixed`, which are not modelled.
- `readFileChunk` is `FileReader` I/O. It becomes the decode parameter of the preview.
- The React components, the theme context and the Tailwind configuration are UI and are not modelled.
- DataBase-Analyser/pythonCodes/main.py and the top-level main.py are not part of this model. They are thin pandas and sqlite wrappers that duplicate `read_file`.
- The FastAPI handlers `upload_file` and `process_user_query` are not modelled: they do file I/O, hold global state and call the model.
- The CSV reader's `Error parsing CSV` catch branch is not modelled, because nothing in its try block can throw on decoded rows.
- Tabular.ParseCsv: its failure input is an error of the csv-parser stream only. The `error` handler is attached to the stream that `pipe(csv())` returns, so an error of the file read stream never reaches it: an unreadable CSV file gives an unhandled stream error and a promise that never settles, which is not modelled.
- Python's `read_file` does not catch library errors. An unreadable file raises there; the model's inputs are always readable frames.
- Text.ToLower: lower-cases ASCII letters only. JavaScript's `toLowerCase` and Python's `lower` also fold other scripts. The comparisons still agree: every literal compared against the result is ASCII, none contains `k` (U+212A KELVIN SIGN lowers to `k`), and none ends with `i` (U+0130 lowers to `i` followed by a combining dot). The two messages that echo a lowered extension, `Unsupported file format: <ext>` and `Binary file format (<ext>)`, do differ for an extension with non-ASCII capitals: for `x.ÄB` the code reports `.äb` and the model `.Äb`.
- Dispatch.Extension: follows POSIX `path.extname`. Windows separators and drive letters are not modelled.
- ClientFiles.ExtensionAfterLastDot: assumes a name shorter than 2^32 characters, well above the longest JavaScript string.
- ClientFiles.ClientServerExtension: covers names without `/`, as a browser `File` name is.
- ClientFiles.ClientAgreesWithServer: covers names without `/`, as a browser `File` name is. It compares against `path.extname` of the browser's name, but the server dispatches on multer's stored name `<time>-<name>` (DataBase-Analyser/server.js lines 64 and 380). The two differ for a name whose only dot is its first character, such as `.csv`. StoredNameAgrees covers the stored name, and HiddenNameDisagrees shows the difference.
- PyReader.JoinNames: treats column names as strings. `str(col)` of a non-string pandas column label is not modelled.
- Sessions.Disconnect: a file's name stands for its path. `path.join` normalisation, which could map two names to one file, is not modelled.
- JavaScript object key order: integer-like keys, which objects enumerate first, and the `__proto__` key are not modelled. The tables map is a plain insertion-ordered list.
- Summary.DatabaseSummary: a `tables` value that is truthy but not an object is not modelled.
