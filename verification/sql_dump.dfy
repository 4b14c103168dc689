/**
 * `parseSQLFile` in DataBase-Analyser/server/dbParser.js: the two global,
 * case-insensitive regular expressions that pull `CREATE TABLE` statements
 * and their column definitions out of a SQL dump, written out as a
 * scanner that follows the regular-expression engine's choices.
 *
 * Statement pattern:  CREATE\s+TABLE\s+[`"']?(\w+)[`"']?\s*\(([\s\S]*?)\);
 * Column pattern:     \s*[`"']?(\w+)[`"']?\s+(\w+)(?:\(.*?\))?(?:\s+(NOT NULL|NULL))?(?:\s+DEFAULT\s+([^,]+))?
 *
 * Every repetition in both patterns is forced to its longest run (a
 * shorter run leaves a character the next piece cannot take), every
 * optional group is taken whenever it can match (nothing after it can
 * fail), and the lazy body stops at the first `);`. The one place the
 * engine backtracks into a run is `DEFAULT\s+([^,]+)` when the blanks
 * after DEFAULT reach a comma or the end: `\s+` then gives its last blank
 * to the capture.
 */
module SqlDump {
  import opened Wrappers
  import opened Text
  import opened Schema
  import opened GlobalScan
  import OrderedMap

  /** The identifier quotes both patterns accept: backtick, double and single quote. */
  predicate IsQuote(c: char)
  {
    c == '`' || c == '"' || c == '\''
  }

  /** `\s*` from `i`: the end of the longest run of blanks. */
  function SkipSpaces(s: string, i: nat): (j: nat)
    requires i <= |s|
    ensures i <= j <= |s|
    ensures j == |s| || !IsSpace(s[j])
    decreases |s| - i
  {
    if i < |s| && IsSpace(s[i]) then SkipSpaces(s, i + 1) else i
  }

  /** `\w*` from `i`: the end of the longest run of word characters. */
  function SkipWord(s: string, i: nat): (j: nat)
    requires i <= |s|
    ensures i <= j <= |s|
    ensures j == |s| || !IsWordChar(s[j])
    decreases |s| - i
  {
    if i < |s| && IsWordChar(s[i]) then SkipWord(s, i + 1) else i
  }

  /** `[^,]*` from `i`: the end of the longest run without a comma. */
  function SkipNonComma(s: string, i: nat): (j: nat)
    requires i <= |s|
    ensures i <= j <= |s|
    ensures j == |s| || s[j] == ','
    decreases |s| - i
  {
    if i < |s| && s[i] != ',' then SkipNonComma(s, i + 1) else i
  }

  /** `[`"']?` at `i`. */
  function OptionalQuote(s: string, i: nat): (j: nat)
    requires i <= |s|
    ensures j == i || (j == i + 1 && i < |s| && IsQuote(s[i]))
    ensures j == i ==> i == |s| || !IsQuote(s[i])
  {
    if i < |s| && IsQuote(s[i]) then i + 1 else i
  }

  /** `);` starts at index `k` of `s`. */
  predicate TerminatorAt(s: string, k: int)
  {
    0 <= k && k + 1 < |s| && s[k] == ')' && s[k + 1] == ';'
  }

  /** `[\s\S]*?\);` from `i`: the index of the first `);` at or after `i`. */
  function FindTerminator(s: string, i: nat): (t: Option<nat>)
    requires i <= |s|
    ensures t.Some? ==> i <= t.value && TerminatorAt(s, t.value)
    decreases |s| - i
  {
    if i + 1 >= |s| then None
    else if s[i] == ')' && s[i + 1] == ';' then Some(i)
    else FindTerminator(s, i + 1)
  }

  /** Every character `SkipSpaces` passes over is a blank. */
  lemma {:induction false} SpacesRun(s: string, i: nat)
    requires i <= |s|
    ensures forall k :: i <= k < SkipSpaces(s, i) ==> IsSpace(s[k])
    decreases |s| - i
  {
    if i < |s| && IsSpace(s[i]) {
      SpacesRun(s, i + 1);
    }
  }

  /** Every character `SkipWord` passes over is a word character. */
  lemma {:induction false} WordRun(s: string, i: nat)
    requires i <= |s|
    ensures forall k :: i <= k < SkipWord(s, i) ==> IsWordChar(s[k])
    decreases |s| - i
  {
    if i < |s| && IsWordChar(s[i]) {
      WordRun(s, i + 1);
    }
  }

  /** No character `SkipNonComma` passes over is a comma. */
  lemma {:induction false} NonCommaRun(s: string, i: nat)
    requires i <= |s|
    ensures forall k :: i <= k < SkipNonComma(s, i) ==> s[k] != ','
    decreases |s| - i
  {
    if i < |s| && s[i] != ',' {
      NonCommaRun(s, i + 1);
    }
  }

  /** `FindTerminator` reports the first `);` at or after `i`, and reports none only when there is none. */
  lemma {:induction false} TerminatorFirst(s: string, i: nat)
    requires i <= |s|
    ensures FindTerminator(s, i).Some? ==> forall k :: i <= k < FindTerminator(s, i).value ==> !TerminatorAt(s, k)
    ensures FindTerminator(s, i).None? ==> forall k :: i <= k ==> !TerminatorAt(s, k)
    decreases |s| - i
  {
    if i + 1 < |s| && !(s[i] == ')' && s[i + 1] == ';') {
      TerminatorFirst(s, i + 1);
    }
  }

  /** `CloseParen` stops at the first `)` and crosses no line terminator. */
  lemma {:induction false} CloseParenFirst(s: string, i: nat)
    requires i <= |s|
    ensures CloseParen(s, i).Some? ==> forall k :: i <= k < CloseParen(s, i).value ==> s[k] != ')' && !IsLineTerminator(s[k])
    decreases |s| - i
  {
    if i < |s| && !IsLineTerminator(s[i]) && s[i] != ')' {
      CloseParenFirst(s, i + 1);
    }
  }

  /** The two captures of the statement pattern: the table name and the text between `(` and the first `);`. */
  datatype CreateGroups = CreateGroups(name: string, body: string)

  type CreateMatch = Found<CreateGroups>

  /** `CREATE\s+TABLE\s+` at `p`: where the name part begins. */
  function KeywordsAt(s: string, p: nat): (r: Option<nat>)
    requires p <= |s|
    ensures r.Some? ==> p + 13 <= r.value <= |s|
  {
    if !MatchesAt(s, p, "CREATE") then None
    else
      var a := SkipSpaces(s, p + 6);
      if a == p + 6 || !MatchesAt(s, a, "TABLE") then None
      else
        var b := SkipSpaces(s, a + 5);
        if b == a + 5 then None else Some(b)
  }

  /** `[`"']?(\w+)[`"']?\s*\(` at `b`: the bounds of the name and the index of `(`. */
  function NameAt(s: string, b: nat): (r: Option<(nat, nat, nat)>)
    requires b <= |s|
    ensures r.Some? ==> b <= r.value.0 < r.value.1 <= r.value.2 < |s| && s[r.value.2] == '('
    ensures r.Some? ==> IsWord(s[r.value.0..r.value.1])
  {
    var n0 := OptionalQuote(s, b);
    var n1 := SkipWord(s, n0);
    WordRun(s, n0);
    if n1 == n0 then None
    else
      var o := SkipSpaces(s, OptionalQuote(s, n1));
      if o < |s| && s[o] == '(' then Some((n0, n1, o)) else None
  }

  /** The statement pattern tried at index `p` and nowhere else. */
  function MatchCreateAt(s: string, p: nat): (r: Option<CreateMatch>)
    requires p <= |s|
    ensures r.Some? ==> r.value.start == p && p < r.value.end <= |s|
    ensures r.Some? ==> IsWord(r.value.groups.name) && TerminatorAt(s, r.value.end - 2)
  {
    match KeywordsAt(s, p)
    case None => None
    case Some(b) =>
      match NameAt(s, b)
      case None => None
      case Some(h) =>
        match FindTerminator(s, h.2 + 1)
        case None => None
        case Some(t) => Some(Found(p, t + 2, CreateGroups(s[h.0..h.1], s[h.2 + 1..t])))
  }

  /** The body a statement match captures holds no `);`: the lazy body stops at the first terminator. */
  lemma MatchedBodyUnterminated(s: string, p: nat)
    requires p <= |s| && MatchCreateAt(s, p).Some?
    ensures var body := MatchCreateAt(s, p).value.groups.body;
      forall k :: 0 <= k < |body| ==> !TerminatorAt(body + ");", k)
  {
    var o := NameAt(s, KeywordsAt(s, p).value).value.2;
    var i := o + 1;
    BodyUnterminated(s, i, FindTerminator(s, i).value);
  }

  lemma BodyUnterminated(s: string, i: nat, t: nat)
    requires i <= |s| && FindTerminator(s, i) == Some(t)
    ensures forall k :: 0 <= k < |s[i..t]| ==> !TerminatorAt(s[i..t] + ");", k)
  {
    var body := s[i..t];
    TerminatorFirst(s, i);
    assert body + ");" == s[i..t + 2];
    forall k | 0 <= k < |body| ensures !TerminatorAt(body + ");", k) {
      assert !TerminatorAt(s, i + k);
    }
  }

  /** The statement pattern as a matcher for the global loop. */
  function CreateAt(s: string): (at: nat -> Option<CreateMatch>)
    ensures Anchored(at, |s|)
    ensures forall p :: 0 <= p <= |s| ==> at(p) == MatchCreateAt(s, p)
  {
    (p: nat) => if p <= |s| then MatchCreateAt(s, p) else None
  }

  /** Every statement match of the dump, left to right. */
  function CreateMatches(s: string): (ms: seq<CreateMatch>)
    ensures forall i :: 0 <= i < |ms| ==> ms[i].start <= |s| && MatchCreateAt(s, ms[i].start) == Some(ms[i])
    ensures forall i :: 0 <= i < |ms| - 1 ==> ms[i].end <= ms[i + 1].start
    ensures |ms| == 0 <==> forall q :: 0 <= q <= |s| ==> MatchCreateAt(s, q).None?
  {
    AllMatches(CreateAt(s), |s|, 0)
  }

  /** No CREATE TABLE match is skipped: the pattern fails before the first match, between consecutive matches and after the last. */
  lemma CreateMatchesComplete(s: string)
    ensures var ms := CreateMatches(s);
      |ms| > 0 ==> forall q :: 0 <= q < ms[0].start ==> MatchCreateAt(s, q).None?
    ensures var ms := CreateMatches(s);
      forall i, q :: 0 <= i < |ms| - 1 && ms[i].end <= q < ms[i + 1].start ==> MatchCreateAt(s, q).None?
    ensures var ms := CreateMatches(s);
      |ms| > 0 ==> forall q :: ms[|ms| - 1].end <= q <= |s| ==> MatchCreateAt(s, q).None?
  {
    var at, ms := CreateAt(s), CreateMatches(s);
    if |ms| > 0 {
      NoneSkippedBefore(at, |s|, 0);
      forall q | 0 <= q < ms[0].start ensures MatchCreateAt(s, q).None? {
        assert at(q).None?;
      }
    }
    forall i, q | 0 <= i < |ms| - 1 && ms[i].end <= q < ms[i + 1].start ensures MatchCreateAt(s, q).None? {
      NoneSkippedBetweenAt(at, |s|, 0, ms, i, q);
    }
    if |ms| > 0 {
      NoneSkippedAfter(at, |s|, 0);
      forall q | ms[|ms| - 1].end <= q <= |s| ensures MatchCreateAt(s, q).None? {
        assert at(q).None?;
      }
    }
  }

  /** `\(.*?\)` after the opening parenthesis: the first `)` reached without crossing a line terminator. */
  function CloseParen(s: string, i: nat): (r: Option<nat>)
    requires i <= |s|
    ensures r.Some? ==> i <= r.value < |s| && s[r.value] == ')'
    decreases |s| - i
  {
    if i == |s| || IsLineTerminator(s[i]) then None
    else if s[i] == ')' then Some(i)
    else CloseParen(s, i + 1)
  }

  /** The optional size group `(?:\(.*?\))?` at `i`: where the match continues. */
  function SizeEnd(s: string, i: nat): (j: nat)
    requires i <= |s|
    ensures i <= j <= |s|
    ensures j > i ==> s[i] == '(' && s[j - 1] == ')'
  {
    if i < |s| && s[i] == '(' then
      match CloseParen(s, i + 1)
      case None => i
      case Some(k) => k + 1
    else i
  }

  /** The optional group `(?:\s+(NOT NULL|NULL))?` at `i`: where the match continues, and the capture. */
  function NullabilityAt(s: string, i: nat): (r: (nat, Option<string>))
    requires i <= |s|
    ensures i <= r.0 <= |s|
    ensures r.1.None? <==> r.0 == i
    ensures r.1.Some? ==> |r.1.value| <= r.0 && r.1.value == s[r.0 - |r.1.value|..r.0]
    ensures r.1.Some? ==> (|r.1.value| == 8 && MatchesAt(r.1.value, 0, "NOT NULL")) || (|r.1.value| == 4 && MatchesAt(r.1.value, 0, "NULL"))
  {
    var w := SkipSpaces(s, i);
    if w > i && MatchesAt(s, w, "NOT NULL") then (w + 8, Some(s[w..w + 8]))
    else if w > i && MatchesAt(s, w, "NULL") then (w + 4, Some(s[w..w + 4]))
    else (i, None)
  }

  /** The optional group `(?:\s+DEFAULT\s+([^,]+))?` at `i`: where the match continues, and the capture. */
  function DefaultAt(s: string, i: nat): (r: (nat, Option<string>))
    requires i <= |s|
    ensures i <= r.0 <= |s|
    ensures r.1.None? <==> r.0 == i
    ensures r.1.Some? ==> 0 < |r.1.value| <= r.0 && r.1.value == s[r.0 - |r.1.value|..r.0]
    ensures r.1.Some? ==> forall k :: 0 <= k < |r.1.value| ==> r.1.value[k] != ','
  {
    var w := SkipSpaces(s, i);
    if w == i || !MatchesAt(s, w, "DEFAULT") then (i, None)
    else
      var x := w + 7;
      var y := SkipSpaces(s, x);
      if y == x then (i, None)
      else if y < |s| && s[y] != ',' then
        var z := SkipNonComma(s, y);
        NonCommaRun(s, y);
        (z, Some(s[y..z]))
      else if y - x >= 2 then
        SpacesRun(s, x);
        (y, Some(s[y - 1..y]))
      else (i, None)
  }

  /** The four captures of the column pattern: name, type, nullability keyword and default text. */
  datatype ColumnGroups = ColumnGroups(name: string, colType: string, nullability: Option<string>, defaultValue: Option<string>)

  type ColumnMatch = Found<ColumnGroups>

  /** The column pattern tried at index `p` and nowhere else. */
  function MatchColumnAt(s: string, p: nat): (r: Option<ColumnMatch>)
    requires p <= |s|
    ensures r.Some? ==> r.value.start == p && p < r.value.end <= |s|
    ensures r.Some? ==> IsWord(r.value.groups.name) && IsWord(r.value.groups.colType)
  {
    var b := OptionalQuote(s, SkipSpaces(s, p));
    var c := SkipWord(s, b);
    if c == b then None
    else
      var d := OptionalQuote(s, c);
      var e := SkipSpaces(s, d);
      if e == d then None
      else
        var f := SkipWord(s, e);
        if f == e then None
        else
          var nullability := NullabilityAt(s, SizeEnd(s, f));
          var dflt := DefaultAt(s, nullability.0);
          WordRun(s, b);
          WordRun(s, e);
          Some(Found(p, dflt.0, ColumnGroups(s[b..c], s[e..f], nullability.1, dflt.1)))
  }

  /** The column pattern as a matcher for the global loop. */
  function ColumnAt(s: string): (at: nat -> Option<ColumnMatch>)
    ensures Anchored(at, |s|)
    ensures forall p :: 0 <= p <= |s| ==> at(p) == MatchColumnAt(s, p)
  {
    (p: nat) => if p <= |s| then MatchColumnAt(s, p) else None
  }

  /** Every column match across a statement body, left to right. */
  function ColumnMatches(body: string): (ms: seq<ColumnMatch>)
    ensures forall i :: 0 <= i < |ms| ==> ms[i].start <= |body| && MatchColumnAt(body, ms[i].start) == Some(ms[i])
    ensures forall i :: 0 <= i < |ms| - 1 ==> ms[i].end <= ms[i + 1].start
    ensures |ms| == 0 <==> forall q :: 0 <= q <= |body| ==> MatchColumnAt(body, q).None?
  {
    AllMatches(ColumnAt(body), |body|, 0)
  }

  /** No column match is skipped: the pattern fails before the first match, between consecutive matches and after the last. */
  lemma ColumnMatchesComplete(body: string)
    ensures var ms := ColumnMatches(body);
      |ms| > 0 ==> forall q :: 0 <= q < ms[0].start ==> MatchColumnAt(body, q).None?
    ensures var ms := ColumnMatches(body);
      forall i, q :: 0 <= i < |ms| - 1 && ms[i].end <= q < ms[i + 1].start ==> MatchColumnAt(body, q).None?
    ensures var ms := ColumnMatches(body);
      |ms| > 0 ==> forall q :: ms[|ms| - 1].end <= q <= |body| ==> MatchColumnAt(body, q).None?
  {
    var at, ms := ColumnAt(body), ColumnMatches(body);
    if |ms| > 0 {
      NoneSkippedBefore(at, |body|, 0);
      forall q | 0 <= q < ms[0].start ensures MatchColumnAt(body, q).None? {
        assert at(q).None?;
      }
    }
    forall i, q | 0 <= i < |ms| - 1 && ms[i].end <= q < ms[i + 1].start ensures MatchColumnAt(body, q).None? {
      NoneSkippedBetweenAt(at, |body|, 0, ms, i, q);
    }
    if |ms| > 0 {
      NoneSkippedAfter(at, |body|, 0);
      forall q | ms[|ms| - 1].end <= q <= |body| ensures MatchColumnAt(body, q).None? {
        assert at(q).None?;
      }
    }
  }

  /** The schema entry pushed for a column match: NOT NULL only for the exact capture `NOT NULL`, and no primary-key property. */
  function ColumnOfMatch(g: ColumnGroups): (c: Column)
    ensures c.name == g.name && c.colType == g.colType && c.defaultValue == g.defaultValue
    ensures c.notNull <==> g.nullability == Some("NOT NULL")
    ensures c.isPrimaryKey.None?
  {
    Column(g.name, g.colType, g.nullability == Some("NOT NULL"), g.defaultValue, None)
  }

  /** The schema recovered from a statement body. */
  function BodySchema(body: string): (cols: seq<Column>)
  {
    var ms := ColumnMatches(body);
    seq(|ms|, i requires 0 <= i < |ms| => ColumnOfMatch(ms[i].groups))
  }

  /** A table recovered from a dump carries a schema only: no sample rows and a row count of 0. */
  predicate SchemaOnly(t: Table)
  {
    t.sampleData == [] && t.rowCount == 0
  }

  /** The record stored for one statement: the recovered schema, no sample and a row count of 0. */
  function StatementTable(m: CreateMatch): (t: Table)
    ensures SchemaOnly(t)
  {
    Table(BodySchema(m.groups.body), [], 0)
  }

  /** The table names the statement matches capture, in text order. */
  function StatementNames(content: string): (names: seq<string>)
    ensures |names| == |CreateMatches(content)|
    ensures forall i :: 0 <= i < |names| ==> names[i] == CreateMatches(content)[i].groups.name && IsWord(names[i])
  {
    var ms := CreateMatches(content);
    seq(|ms|, i requires 0 <= i < |ms| => ms[i].groups.name)
  }

  /** One `tables[tableName] = {…}` assignment per match, in text order. */
  function EntriesOf(ms: seq<CreateMatch>): (es: seq<(string, Table)>)
    ensures |es| == |ms|
    ensures forall i :: 0 <= i < |ms| ==> es[i].0 == ms[i].groups.name && SchemaOnly(es[i].1)
  {
    seq(|ms|, i requires 0 <= i < |ms| => (ms[i].groups.name, StatementTable(ms[i])))
  }

  /** The assignments `parseSQLFile` makes while walking the dump. */
  function StatementEntries(content: string): (es: seq<(string, Table)>)
    ensures |es| == |CreateMatches(content)|
    ensures forall i :: 0 <= i < |es| ==> es[i] == (StatementNames(content)[i], StatementTable(CreateMatches(content)[i]))
    ensures forall i :: 0 <= i < |es| ==> IsWord(es[i].0) && SchemaOnly(es[i].1)
  {
    EntriesOf(CreateMatches(content))
  }

  /** The table map `parseSQLFile` builds from the dump text. */
  function DumpTables(content: string): Tables
  {
    OrderedMap.PutAll([], EntriesOf(CreateMatches(content)))
  }

  /** Assignments of schema-only tables under word names into an empty map give distinct word keys and schema-only values. */
  lemma SchemaOnlyEntries(es: seq<(string, Table)>)
    requires forall i :: 0 <= i < |es| ==> IsWord(es[i].0) && SchemaOnly(es[i].1)
    ensures OrderedMap.DistinctKeys(OrderedMap.PutAll([], es))
    ensures forall i :: 0 <= i < |OrderedMap.PutAll([], es)| ==>
      IsWord(OrderedMap.PutAll([], es)[i].0) && SchemaOnly(OrderedMap.PutAll([], es)[i].1)
  {
    var tables := OrderedMap.PutAll([], es);
    OrderedMap.PutAllDistinct([], es);
    OrderedMap.PutAllPreserves([], es, SchemaOnly);
    forall i | 0 <= i < |tables| ensures IsWord(tables[i].0) {
      OrderedMap.PutAllKeys(es, tables[i].0);
      assert tables[i].0 in OrderedMap.Keys(tables);
    }
  }

  /**
   * The table map holds one entry per distinct statement name, every name is
   * a non-empty run of word characters, and no table has sample rows or a
   * row count.
   */
  lemma DumpTablesShape(content: string)
    ensures OrderedMap.DistinctKeys(DumpTables(content))
    ensures forall k :: k in OrderedMap.Keys(DumpTables(content)) <==> k in StatementNames(content)
    ensures forall i :: 0 <= i < |DumpTables(content)| ==> IsWord(DumpTables(content)[i].0) && SchemaOnly(DumpTables(content)[i].1)
  {
    var es := StatementEntries(content);
    SchemaOnlyEntries(es);
    forall k ensures k in OrderedMap.Keys(DumpTables(content)) <==> k in StatementNames(content) {
      OrderedMap.PutAllKeys(es, k);
      assert OrderedMap.Keys(es) == StatementNames(content);
    }
  }

  /**
   * `parseSQLFile`: a read failure rejects; any readable text yields the
   * table map of its statements, possibly empty: one schema-only table per
   * distinct statement name, each named by a word.
   */
  function ParseSqlFile(read: Result<string>): (r: Result<Database>)
    ensures read.Failure? <==> r.Failure?
    ensures read.Failure? ==> r.error == "Error parsing SQL file: " + read.error
    ensures read.Success? ==> r.value.tables == DumpTables(read.value)
    ensures read.Success? ==> forall k :: k in OrderedMap.Keys(r.value.tables) <==> k in StatementNames(read.value)
    ensures r.Success? ==> OrderedMap.DistinctKeys(r.value.tables)
    ensures r.Success? ==> forall i :: 0 <= i < |r.value.tables| ==> IsWord(r.value.tables[i].0) && SchemaOnly(r.value.tables[i].1)
  {
    match read
    case Failure(e) => Failure("Error parsing SQL file: " + e)
    case Success(content) =>
      DumpTablesShape(content);
      Success(Database(DumpTables(content)))
  }

  /** When several statements define the same name, the last definition is the one kept. */
  lemma LastDefinitionWins(content: string, i: nat)
    requires i < |StatementNames(content)|
    requires forall j :: i < j < |StatementNames(content)| ==> StatementNames(content)[j] != StatementNames(content)[i]
    ensures OrderedMap.Get(DumpTables(content), StatementNames(content)[i]) == Some(StatementTable(CreateMatches(content)[i]))
  {
    var es := StatementEntries(content);
    var k := StatementNames(content)[i];
    OrderedMap.LastForIndex(es, k, i);
    OrderedMap.GetPutAll([], es, k);
  }

  /** A dump with no `);` anywhere yields no tables: the lazy body needs a terminator. */
  lemma NoTerminatorNoTables(content: string)
    requires forall k :: !TerminatorAt(content, k)
    ensures DumpTables(content) == []
  {
  }
}
