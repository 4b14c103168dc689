/**
 * What the SQL-dump scanner recovers from text written in the shape its two
 * patterns describe: a `CREATE TABLE` statement assembled from its pieces is
 * found whole with its name and body, a comma-separated list of column
 * clauses is read back clause by clause, and two consequences the patterns
 * imply for ordinary SQL (a lower-case `not null` and a `PRIMARY KEY`
 * suffix).
 */
module SqlDumpText {
  import opened Wrappers
  import opened Text
  import opened Schema
  import opened GlobalScan
  import opened SqlDump
  import OrderedMap

  /** `x` is the keyword `kw` in any mix of letter cases. */
  predicate Spells(x: string, kw: string)
  {
    |x| == |kw| && MatchesAt(x, 0, kw)
  }

  /** A non-empty run of blanks. */
  predicate Blanks(x: string)
  {
    |x| > 0 && AllSpaces(x)
  }

  /** An optional identifier quote. */
  predicate QuoteOrNothing(q: string)
  {
    q == "" || (|q| == 1 && IsQuote(q[0]))
  }

  /** No `);` anywhere in `x`. */
  predicate NoTerminator(x: string)
  {
    forall k :: 0 <= k < |x| ==> !TerminatorAt(x, k)
  }

  // ----- small facts about the scanner's runs -----

  lemma SpacesTo(s: string, i: nat, j: nat)
    requires i <= j <= |s| && AllSpaces(s[i..j])
    requires j == |s| || !IsSpace(s[j])
    ensures SkipSpaces(s, i) == j
  {
    SpacesRun(s, i);
    assert forall k :: i <= k < j ==> IsSpace(s[k]) by {
      forall k | i <= k < j ensures IsSpace(s[k]) {
        assert s[i..j][k - i] == s[k];
      }
    }
  }

  lemma WordTo(s: string, i: nat, j: nat)
    requires i < j <= |s| && IsWord(s[i..j])
    requires j == |s| || !IsWordChar(s[j])
    ensures SkipWord(s, i) == j
  {
    WordRun(s, i);
    assert forall k :: i <= k < j ==> IsWordChar(s[k]) by {
      forall k | i <= k < j ensures IsWordChar(s[k]) {
        assert s[i..j][k - i] == s[k];
      }
    }
  }

  lemma NonCommaTo(s: string, i: nat, j: nat)
    requires i <= j <= |s| && forall k :: 0 <= k < j - i ==> s[i..j][k] != ','
    requires j == |s| || s[j] == ','
    ensures SkipNonComma(s, i) == j
  {
    NonCommaRun(s, i);
    assert forall k :: i <= k < j ==> s[k] != ',' by {
      forall k | i <= k < j ensures s[k] != ',' {
        assert s[i..j][k - i] == s[k];
      }
    }
  }

  lemma KeywordAt(s: string, i: nat, j: nat, kw: string)
    requires i <= j <= |s| && Spells(s[i..j], kw)
    ensures MatchesAt(s, i, kw)
  {
    forall k | 0 <= k < |kw| ensures SameIgnoringCase(s[i + k], kw[k]) {
      assert s[i..j][k] == s[i + k];
    }
  }

  /** A character spelling an upper-case letter is a word character, hence no blank, quote, comma or parenthesis. */
  lemma LetterChar(c: char, l: char)
    requires 'A' <= l <= 'Z' && SameIgnoringCase(c, l)
    ensures IsWordChar(c) && !IsSpace(c) && !IsQuote(c) && c != ',' && c != '(' && c != ')'
  {
  }

  lemma WordCharIsNoSeparator(c: char)
    requires IsWordChar(c)
    ensures !IsSpace(c) && !IsQuote(c) && c != ',' && c != '(' && c != ')'
  {
  }

  // ----- statements -----

  /** A `CREATE TABLE` statement cut into the pieces the statement pattern reads. */
  datatype CreateText = CreateText(
    create: string, gap1: string, table: string, gap2: string,
    openQuote: string, name: string, closeQuote: string, gap3: string, body: string)

  function CreatePieces(c: CreateText): seq<string>
  {
    [c.create, c.gap1, c.table, c.gap2, c.openQuote, c.name, c.closeQuote, c.gap3, "(", c.body, ");"]
  }

  /** The statement text: the pieces one after another, ending in `);`. */
  function RenderCreate(c: CreateText): string
  {
    Concat(CreatePieces(c))
  }

  /**
   * The shape the statement pattern describes: the two keywords in any case
   * separated and followed by blanks, an optionally quoted word name,
   * optional blanks, and a body without `);` inside the parentheses.
   */
  predicate WellFormedCreate(c: CreateText)
  {
    Spells(c.create, "CREATE") && Blanks(c.gap1) && Spells(c.table, "TABLE") && Blanks(c.gap2)
    && QuoteOrNothing(c.openQuote) && IsWord(c.name) && QuoteOrNothing(c.closeQuote)
    && AllSpaces(c.gap3) && NoTerminator(c.body)
  }

  /** The text `pre + x + post` as one concatenation of three parts. */
  lemma Surround(pre: string, parts: seq<string>, post: string)
    ensures Concat([pre] + parts + [post]) == pre + Concat(parts) + post
  {
    ConcatAppend([pre] + parts, [post]);
    ConcatAppend([pre], parts);
    ConcatSingle(pre);
    ConcatSingle(post);
  }

  /** Consecutive part starts of a concatenation, and the parts they delimit. */
  lemma PartStarts(ps: seq<string>) returns (o: seq<nat>)
    ensures |o| == |ps| + 1 && o[0] == 0 && o[|ps|] == |Concat(ps)|
    ensures forall i :: 0 <= i < |ps| ==> o[i + 1] == o[i] + |ps[i]| <= |Concat(ps)| && Concat(ps)[o[i]..o[i + 1]] == ps[i]
  {
    o := seq(|ps| + 1, i requires 0 <= i <= |ps| => PartStart(ps, i));
    forall i | 0 <= i < |ps|
      ensures o[i + 1] == o[i] + |ps[i]| <= |Concat(ps)| && Concat(ps)[o[i]..o[i + 1]] == ps[i]
    {
      ConcatPart(ps, i);
    }
    assert ps[..|ps|] == ps;
  }

  /** Where each of `parts` begins and ends inside `pre + Concat(parts) + post`. */
  lemma PieceStarts(pre: string, parts: seq<string>, post: string) returns (o: seq<nat>)
    ensures |o| == |parts| + 1 && o[0] == |pre| && o[|parts|] == |pre| + |Concat(parts)|
    ensures forall i :: 0 <= i < |parts| ==> o[i + 1] == o[i] + |parts[i]| <= |pre + Concat(parts) + post|
    ensures forall i :: 0 <= i < |parts| ==> (pre + Concat(parts) + post)[o[i]..o[i + 1]] == parts[i]
  {
    var ps := [pre] + parts + [post];
    Surround(pre, parts, post);
    var all := PartStarts(ps);
    o := all[1..|ps|];
    assert |Concat(ps)| == |pre| + |Concat(parts)| + |post|;
    forall i | 0 <= i < |parts|
      ensures o[i + 1] == o[i] + |parts[i]| <= |pre + Concat(parts) + post|
      ensures (pre + Concat(parts) + post)[o[i]..o[i + 1]] == parts[i]
    {
      assert ps[i + 1] == parts[i];
    }
    assert o[|parts|] + |post| == |Concat(ps)| by {
      assert ps[|parts| + 1] == post;
    }
  }

  /** `CREATE`, blanks, `TABLE`, blanks: the keyword part of the walk. */
  lemma CreateKeywords(s: string, c: CreateText, i0: nat, i1: nat, i2: nat, i3: nat, i4: nat, i5: nat)
    requires WellFormedCreate(c)
    requires i0 <= i1 <= i2 <= i3 <= i4 <= i5 < |s|
    requires s[i0..i1] == c.create && s[i1..i2] == c.gap1 && s[i2..i3] == c.table
    requires s[i3..i4] == c.gap2 && s[i4..i5] == c.openQuote && s[i5] == c.name[0]
    ensures MatchesAt(s, i0, "CREATE") && i1 == i0 + 6 && SkipSpaces(s, i1) == i2 > i1
    ensures MatchesAt(s, i2, "TABLE") && i3 == i2 + 5 && SkipSpaces(s, i3) == i4 > i3
  {
    KeywordAt(s, i0, i1, "CREATE");
    TableStart(s, c, i2, i3);
    SpacesTo(s, i1, i2);
    KeywordAt(s, i2, i3, "TABLE");
    NameStart(s, c, i4, i5);
    SpacesTo(s, i3, i4);
  }

  lemma TableStart(s: string, c: CreateText, i2: nat, i3: nat)
    requires WellFormedCreate(c)
    requires i2 <= i3 <= |s| && s[i2..i3] == c.table
    ensures i2 < |s| && !IsSpace(s[i2])
  {
    FirstOfPiece(s, i2, i3, c.table);
    assert SameIgnoringCase(c.table[0 + 0], "TABLE"[0]);
    LetterChar(c.table[0], 'T');
  }

  lemma NameStart(s: string, c: CreateText, i4: nat, i5: nat)
    requires WellFormedCreate(c)
    requires i4 <= i5 < |s| && s[i4..i5] == c.openQuote && s[i5] == c.name[0]
    ensures !IsSpace(s[i4])
  {
    if |c.openQuote| == 1 {
      FirstOfPiece(s, i4, i5, c.openQuote);
    } else {
      WordCharIsNoSeparator(c.name[0]);
    }
  }

  /** The first character of a non-empty piece is the character at the piece's start. */
  lemma FirstOfPiece(s: string, i: nat, j: nat, x: string)
    requires i < j <= |s| && s[i..j] == x
    ensures s[i] == x[0]
  {
    assert s[i..j][0] == s[i];
  }

  /** The optionally quoted name and the blanks before `(`. */
  lemma CreateName(s: string, c: CreateText, i4: nat, i5: nat, i6: nat, i7: nat, i8: nat, i9: nat)
    requires WellFormedCreate(c)
    requires i4 <= i5 <= i6 <= i7 <= i8 < i9 <= |s|
    requires s[i4..i5] == c.openQuote && s[i5..i6] == c.name
    requires s[i6..i7] == c.closeQuote && s[i7..i8] == c.gap3 && s[i8] == '('
    ensures OptionalQuote(s, i4) == i5 && SkipWord(s, i5) == i6 > i5
    ensures OptionalQuote(s, i6) == i7 && SkipSpaces(s, i7) == i8
  {
    NameOpen(s, c, i4, i5, i6);
    NameClose(s, c, i6, i7, i8);
    WordTo(s, i5, i6);
    CloseQuoteEnd(s, c, i6, i7, i8);
    SpacesTo(s, i7, i8);
  }

  lemma NameOpen(s: string, c: CreateText, i4: nat, i5: nat, i6: nat)
    requires WellFormedCreate(c)
    requires i4 <= i5 <= i6 <= |s| && s[i4..i5] == c.openQuote && s[i5..i6] == c.name
    ensures i5 < i6 && OptionalQuote(s, i4) == i5
  {
    FirstOfPiece(s, i5, i6, c.name);
    WordCharIsNoSeparator(c.name[0]);
    if |c.openQuote| == 1 {
      FirstOfPiece(s, i4, i5, c.openQuote);
    }
  }

  lemma NameClose(s: string, c: CreateText, i6: nat, i7: nat, i8: nat)
    requires WellFormedCreate(c)
    requires i6 <= i7 <= i8 < |s| && s[i6..i7] == c.closeQuote && s[i7..i8] == c.gap3 && s[i8] == '('
    ensures !IsWordChar(s[i6])
  {
    if |c.closeQuote| == 1 {
      FirstOfPiece(s, i6, i7, c.closeQuote);
    } else if |c.gap3| > 0 {
      FirstOfPiece(s, i7, i8, c.gap3);
    }
    if IsWordChar(s[i6]) {
      WordCharIsNoSeparator(s[i6]);
    }
  }

  lemma CloseQuoteEnd(s: string, c: CreateText, i6: nat, i7: nat, i8: nat)
    requires WellFormedCreate(c)
    requires i6 <= i7 <= i8 < |s| && s[i6..i7] == c.closeQuote && s[i7..i8] == c.gap3 && s[i8] == '('
    ensures OptionalQuote(s, i6) == i7
  {
    if |c.closeQuote| == 1 {
      FirstOfPiece(s, i6, i7, c.closeQuote);
    } else if |c.gap3| > 0 {
      FirstOfPiece(s, i7, i8, c.gap3);
    }
  }

  /** The keyword part of the statement pattern ends where the walk says. */
  lemma KeywordsSteps(s: string, p: nat, p6: nat, a: nat, a5: nat, b: nat)
    requires p6 == p + 6 && a5 == a + 5
    requires p6 <= a <= |s| && MatchesAt(s, p, "CREATE") && SkipSpaces(s, p6) == a > p6
    requires a5 <= |s| && MatchesAt(s, a, "TABLE") && SkipSpaces(s, a5) == b > a5
    ensures KeywordsAt(s, p) == Some(b)
  {
  }

  /** The name part of the statement pattern ends where the walk says. */
  lemma NameSteps(s: string, b: nat, n0: nat, n1: nat, q: nat, o: nat)
    requires b <= |s| && OptionalQuote(s, b) == n0 && SkipWord(s, n0) == n1 > n0
    requires OptionalQuote(s, n1) == q && SkipSpaces(s, q) == o && o < |s| && s[o] == '('
    ensures NameAt(s, b) == Some((n0, n1, o))
  {
  }

  /** The statement pattern succeeds at `p` once each of its steps is known to land where expected. */
  lemma MatchCreateSteps(s: string, p: nat, b: nat, n0: nat, n1: nat, o: nat, o1: nat, t: nat)
    requires p <= |s| && KeywordsAt(s, p) == Some(b) && NameAt(s, b) == Some((n0, n1, o))
    requires o1 == o + 1 && FindTerminator(s, o1) == Some(t)
    ensures MatchCreateAt(s, p) == Some(Found(p, t + 2, CreateGroups(s[n0..n1], s[o1..t])))
  {
  }

  /** The scanner's steps over a statement whose pieces lie at the consecutive positions `i0`, …, `i11` of `s`. */
  lemma CreateWalk(s: string, c: CreateText, i0: nat, i1: nat, i2: nat, i3: nat, i4: nat, i5: nat,
                   i6: nat, i7: nat, i8: nat, i9: nat, i10: nat, i11: nat)
    requires WellFormedCreate(c)
    requires i0 <= i1 <= i2 <= i3 <= i4 <= i5 <= i6 <= i7 <= i8 <= i9 <= i10 <= i11 <= |s|
    requires s[i0..i1] == c.create && s[i1..i2] == c.gap1 && s[i2..i3] == c.table
    requires s[i3..i4] == c.gap2 && s[i4..i5] == c.openQuote && s[i5..i6] == c.name
    requires s[i6..i7] == c.closeQuote && s[i7..i8] == c.gap3 && s[i8..i9] == "("
    requires s[i9..i10] == c.body && s[i10..i11] == ");"
    ensures MatchesAt(s, i0, "CREATE") && i1 == i0 + 6 && SkipSpaces(s, i1) == i2 > i1
    ensures MatchesAt(s, i2, "TABLE") && i3 == i2 + 5 && SkipSpaces(s, i3) == i4 > i3
    ensures OptionalQuote(s, i4) == i5 && SkipWord(s, i5) == i6 > i5
    ensures OptionalQuote(s, i6) == i7 && SkipSpaces(s, i7) == i8 && s[i8] == '(' && i9 == i8 + 1
    ensures FindTerminator(s, i9) == Some(i10) && i11 == i10 + 2
  {
    FirstOfPiece(s, i5, i6, c.name);
    CreateKeywords(s, c, i0, i1, i2, i3, i4, i5);
    FirstOfPiece(s, i8, i9, "(");
    CreateName(s, c, i4, i5, i6, i7, i8, i9);
    CreateWalkTail(s, c.body, i9, i10, i11);
  }

  lemma CreateWalkTail(s: string, body: string, i9: nat, i10: nat, i11: nat)
    requires NoTerminator(body)
    requires i9 <= i10 <= i11 <= |s|
    requires s[i9..i10] == body && s[i10..i11] == ");"
    ensures FindTerminator(s, i9) == Some(i10) && i11 == i10 + 2
  {
    FirstOfPiece(s, i10, i11, ");");
    assert s[i10 + 1] == ';' by { assert s[i10..i11][1] == s[i10 + 1]; }
    BodyToTerminator(s, body, i9, i10);
  }

  /** A body without `);` followed by `);` is read up to exactly that terminator. */
  lemma BodyToTerminator(s: string, body: string, i: nat, t: nat)
    requires i <= t && t + 2 <= |s| && s[i..t] == body && s[t] == ')' && s[t + 1] == ';'
    requires NoTerminator(body)
    ensures FindTerminator(s, i) == Some(t)
  {
    assert TerminatorAt(s, t);
    TerminatorFirst(s, i);
    forall k | i <= k < t ensures !TerminatorAt(s, k) {
      if k + 1 < t {
        assert s[k] == body[k - i] && s[k + 1] == body[k - i + 1] by {
          assert s[i..t][k - i] == s[k];
          assert s[i..t][k - i + 1] == s[k + 1];
        }
        assert !TerminatorAt(body, k - i);
      }
    }
  }

  /** The pieces of statement `c` lie between the consecutive positions `o` of `s`. */
  predicate CreateSpans(s: string, c: CreateText, o: seq<nat>)
  {
    |o| == 12
    && o[0] <= o[1] <= o[2] <= o[3] <= o[4] <= o[5] <= o[6] <= o[7] <= o[8] <= o[9] <= o[10] <= o[11] <= |s|
    && s[o[0]..o[1]] == c.create && s[o[1]..o[2]] == c.gap1 && s[o[2]..o[3]] == c.table
    && s[o[3]..o[4]] == c.gap2 && s[o[4]..o[5]] == c.openQuote && s[o[5]..o[6]] == c.name
    && s[o[6]..o[7]] == c.closeQuote && s[o[7]..o[8]] == c.gap3 && s[o[8]..o[9]] == "("
    && s[o[9]..o[10]] == c.body && s[o[10]..o[11]] == ");"
  }

  /** Where the pieces of a statement found at index `p` of `s` lie. */
  lemma CreateLayout(s: string, p: nat, c: CreateText) returns (o: seq<nat>)
    requires p + |RenderCreate(c)| <= |s| && s[p..p + |RenderCreate(c)|] == RenderCreate(c)
    ensures CreateSpans(s, c, o) && o[0] == p && o[11] == p + |RenderCreate(c)|
  {
    var pre, post := Around(s, p, p + |RenderCreate(c)|, RenderCreate(c));
    o := PieceStarts(pre, CreatePieces(c), post);
  }

  /** A well-formed statement found anywhere in a text is matched at its first character, exactly, with its name and body. */
  lemma CreateRoundTrip(s: string, p: nat, c: CreateText)
    requires WellFormedCreate(c)
    requires p + |RenderCreate(c)| <= |s| && s[p..p + |RenderCreate(c)|] == RenderCreate(c)
    ensures MatchCreateAt(s, p) == Some(Found(p, p + |RenderCreate(c)|, CreateGroups(c.name, c.body)))
  {
    var o := CreateLayout(s, p, c);
    CreateMatchAt(s, c, o, p);
  }

  /** A statement laid out at `o` in `s` from `p` is matched at `p`, up to its end. */
  lemma CreateMatchAt(s: string, c: CreateText, o: seq<nat>, p: nat)
    requires WellFormedCreate(c) && CreateSpans(s, c, o) && o[0] == p && o[11] == p + |RenderCreate(c)|
    ensures MatchCreateAt(s, p) == Some(Found(p, p + |RenderCreate(c)|, CreateGroups(c.name, c.body)))
  {
    CreateWalk(s, c, p, o[1], o[2], o[3], o[4], o[5], o[6], o[7], o[8], o[9], o[10], o[11]);
    KeywordsSteps(s, p, o[1], o[2], o[3], o[4]);
    NameSteps(s, o[4], o[5], o[6], o[7], o[8]);
    MatchCreateSteps(s, p, o[4], o[5], o[6], o[8], o[9], o[10]);
  }

  /** A text that is one well-formed statement holds exactly one statement match, spanning the whole text. */
  lemma SingleStatementMatches(c: CreateText)
    requires WellFormedCreate(c)
    ensures CreateMatches(RenderCreate(c)) == [Found(0, |RenderCreate(c)|, CreateGroups(c.name, c.body))]
  {
    var s := RenderCreate(c);
    var m := Found(0, |s|, CreateGroups(c.name, c.body));
    assert MatchCreateAt(s, 0) == Some(m) by {
      assert s[0..|s|] == s;
      CreateRoundTrip(s, 0, c);
    }
    var at := CreateAt(s);
    assert at(0) == Some(m);
    MatchesFromAnchor(at, |s|, 0);
    assert AllMatches(at, |s|, |s|) == [] by {
      assert at(|s|) == MatchCreateAt(s, |s|) == None;
    }
  }

  /** A text that is one well-formed statement yields exactly one table: that name, the schema read from the body, no sample and no row count. */
  lemma SingleStatementDump(c: CreateText)
    requires WellFormedCreate(c)
    ensures DumpTables(RenderCreate(c)) == [(c.name, Table(BodySchema(c.body), [], 0))]
  {
    var s := RenderCreate(c);
    SingleStatementMatches(c);
    DumpOfOne(s, Found(0, |s|, CreateGroups(c.name, c.body)));
  }

  /** A text with a single statement match gives a single table. */
  lemma DumpOfOne(content: string, m: CreateMatch)
    requires CreateMatches(content) == [m]
    ensures DumpTables(content) == [(m.groups.name, StatementTable(m))]
  {
    assert EntriesOf([m]) == [(m.groups.name, StatementTable(m))];
    OrderedMap.PutAllFresh(EntriesOf([m]));
  }

  // ----- column clauses -----

  /** One column clause cut into the pieces the column pattern reads. */
  datatype ColumnText = ColumnText(
    lead: string, openQuote: string, name: string, closeQuote: string, gap: string, colType: string,
    size: string, nullGap: string, nullability: string,
    defaultGap: string, defaultKw: string, valueGap: string, defaultValue: string)

  function ColumnPieces(ct: ColumnText): seq<string>
  {
    [ct.lead, ct.openQuote, ct.name, ct.closeQuote, ct.gap, ct.colType, ct.size,
     ct.nullGap, ct.nullability, ct.defaultGap, ct.defaultKw, ct.valueGap, ct.defaultValue]
  }

  /** The clause text: the pieces one after another. */
  function RenderColumn(ct: ColumnText): string
  {
    Concat(ColumnPieces(ct))
  }

  /** An optional size such as `(255)`: parentheses around text without `)` or a line break. */
  predicate SizeText(x: string)
  {
    x == "" || (|x| >= 2 && x[0] == '(' && x[|x| - 1] == ')'
      && forall k :: 1 <= k < |x| - 1 ==> x[k] != ')' && !IsLineTerminator(x[k]))
  }

  /** An optional nullability: blanks and `NOT NULL` or `NULL` in any case, or nothing at all. */
  predicate NullabilityText(gap: string, kw: string)
  {
    (gap == "" && kw == "") || (Blanks(gap) && (Spells(kw, "NOT NULL") || Spells(kw, "NULL")))
  }

  /** An optional default: blanks, `DEFAULT` in any case, blanks and a comma-free value not starting with a blank, or nothing at all. */
  predicate DefaultText(gap: string, kw: string, valueGap: string, value: string)
  {
    (gap == "" && kw == "" && valueGap == "" && value == "")
    || (Blanks(gap) && Spells(kw, "DEFAULT") && Blanks(valueGap) && |value| > 0 && !IsSpace(value[0])
        && forall k :: 0 <= k < |value| ==> value[k] != ',')
  }

  /** The shape the column pattern describes, clause by clause. */
  predicate WellFormedColumn(ct: ColumnText)
  {
    AllSpaces(ct.lead) && QuoteOrNothing(ct.openQuote) && IsWord(ct.name) && QuoteOrNothing(ct.closeQuote)
    && Blanks(ct.gap) && IsWord(ct.colType) && SizeText(ct.size)
    && NullabilityText(ct.nullGap, ct.nullability)
    && DefaultText(ct.defaultGap, ct.defaultKw, ct.valueGap, ct.defaultValue)
  }

  /** What may follow a clause: the end of the body or the comma before the next clause. */
  predicate ClauseEnd(s: string, i: nat)
  {
    i == |s| || (i < |s| && s[i] == ',')
  }

  /** The captures a well-formed clause is expected to produce. */
  function ClauseGroups(ct: ColumnText): ColumnGroups
  {
    ColumnGroups(ct.name, ct.colType,
      if ct.nullability == "" then None else Some(ct.nullability),
      if ct.defaultValue == "" then None else Some(ct.defaultValue))
  }

  /** `\(.*?\)` reaches the first `)` when nothing before it is a line terminator. */
  lemma {:induction false} CloseParenTo(s: string, i: nat, t: nat)
    requires i <= t < |s| && s[t] == ')'
    requires forall k :: i <= k < t ==> s[k] != ')' && !IsLineTerminator(s[k])
    ensures CloseParen(s, i) == Some(t)
    decreases t - i
  {
    if i < t {
      CloseParenTo(s, i + 1, t);
    }
  }

  /** The optional size group takes exactly the size text, or nothing when there is none. */
  lemma SizeTo(s: string, size: string, i: nat, j: nat)
    requires SizeText(size) && i <= j <= |s| && s[i..j] == size
    requires size == "" ==> j == |s| || s[j] != '('
    ensures SizeEnd(s, i) == j
  {
    if size != "" {
      FirstOfPiece(s, i, j, size);
      assert s[j - 1] == ')' by { assert s[i..j][|size| - 1] == s[j - 1]; }
      forall k | i + 1 <= k < j - 1 ensures s[k] != ')' && !IsLineTerminator(s[k]) {
        assert s[i..j][k - i] == s[k];
      }
      CloseParenTo(s, i + 1, j - 1);
    }
  }

  /** Leading blanks and the optionally quoted name. */
  lemma ColumnName(s: string, ct: ColumnText, j0: nat, j1: nat, j2: nat, j3: nat, j4: nat, j5: nat)
    requires WellFormedColumn(ct)
    requires j0 <= j1 <= j2 <= j3 <= j4 < j5 <= |s|
    requires s[j0..j1] == ct.lead && s[j1..j2] == ct.openQuote && s[j2..j3] == ct.name
    requires s[j3..j4] == ct.closeQuote && s[j4..j5] == ct.gap
    ensures SkipSpaces(s, j0) == j1 && OptionalQuote(s, j1) == j2 && SkipWord(s, j2) == j3 > j2
    ensures OptionalQuote(s, j3) == j4
  {
    ColumnOpen(s, ct, j0, j1, j2, j3);
    ColumnClose(s, ct, j3, j4, j5);
    WordTo(s, j2, j3);
  }

  lemma ColumnOpen(s: string, ct: ColumnText, j0: nat, j1: nat, j2: nat, j3: nat)
    requires WellFormedColumn(ct)
    requires j0 <= j1 <= j2 <= j3 <= |s|
    requires s[j0..j1] == ct.lead && s[j1..j2] == ct.openQuote && s[j2..j3] == ct.name
    ensures j2 < j3 && SkipSpaces(s, j0) == j1 && OptionalQuote(s, j1) == j2
  {
    FirstOfPiece(s, j2, j3, ct.name);
    WordCharIsNoSeparator(ct.name[0]);
    if |ct.openQuote| == 1 {
      FirstOfPiece(s, j1, j2, ct.openQuote);
    }
    SpacesTo(s, j0, j1);
  }

  lemma ColumnClose(s: string, ct: ColumnText, j3: nat, j4: nat, j5: nat)
    requires WellFormedColumn(ct)
    requires j3 <= j4 < j5 <= |s| && s[j3..j4] == ct.closeQuote && s[j4..j5] == ct.gap
    ensures !IsWordChar(s[j3]) && (IsQuote(s[j3]) <==> |ct.closeQuote| == 1)
  {
    if |ct.closeQuote| == 1 {
      FirstOfPiece(s, j3, j4, ct.closeQuote);
    } else {
      FirstOfPiece(s, j4, j5, ct.gap);
    }
  }

  /** The blanks and the type word. */
  lemma ColumnType(s: string, ct: ColumnText, j4: nat, j5: nat, j6: nat)
    requires WellFormedColumn(ct)
    requires j4 < j5 < j6 <= |s|
    requires s[j4..j5] == ct.gap && s[j5..j6] == ct.colType
    requires j6 == |s| || !IsWordChar(s[j6])
    ensures SkipSpaces(s, j4) == j5 > j4 && SkipWord(s, j5) == j6 > j5
  {
    FirstOfPiece(s, j5, j6, ct.colType);
    WordCharIsNoSeparator(ct.colType[0]);
    SpacesTo(s, j4, j5);
    WordTo(s, j5, j6);
  }

  /** The optional default group takes exactly the default text, or nothing when there is none. */
  lemma DefaultTo(s: string, ct: ColumnText, j9: nat, j10: nat, j11: nat, j12: nat, j13: nat)
    requires DefaultText(ct.defaultGap, ct.defaultKw, ct.valueGap, ct.defaultValue)
    requires j9 <= j10 <= j11 <= j12 <= j13 <= |s|
    requires s[j9..j10] == ct.defaultGap && s[j10..j11] == ct.defaultKw
    requires s[j11..j12] == ct.valueGap && s[j12..j13] == ct.defaultValue
    requires ClauseEnd(s, j13)
    ensures DefaultAt(s, j9) == (j13, ClauseGroups(ct).defaultValue)
  {
    if ct.defaultValue == "" {
      SpacesTo(s, j9, j9);
    } else {
      DefaultPresent(s, ct, j9, j10, j11, j12, j13);
    }
  }

  lemma DefaultPresent(s: string, ct: ColumnText, j9: nat, j10: nat, j11: nat, j12: nat, j13: nat)
    requires DefaultText(ct.defaultGap, ct.defaultKw, ct.valueGap, ct.defaultValue) && ct.defaultValue != ""
    requires j9 <= j10 <= j11 <= j12 <= j13 <= |s|
    requires s[j9..j10] == ct.defaultGap && s[j10..j11] == ct.defaultKw
    requires s[j11..j12] == ct.valueGap && s[j12..j13] == ct.defaultValue
    requires ClauseEnd(s, j13)
    ensures DefaultAt(s, j9) == (j13, Some(ct.defaultValue))
  {
    DefaultKeywordStart(s, ct, j10, j11);
    SpacesTo(s, j9, j10);
    KeywordAt(s, j10, j11, "DEFAULT");
    FirstOfPiece(s, j12, j13, ct.defaultValue);
    SpacesTo(s, j11, j12);
    NonCommaTo(s, j12, j13);
  }

  /** A `DEFAULT` keyword in any case starts with a `D`, which is not a blank. */
  lemma DefaultKeywordStart(s: string, ct: ColumnText, j10: nat, j11: nat)
    requires DefaultText(ct.defaultGap, ct.defaultKw, ct.valueGap, ct.defaultValue) && ct.defaultKw != ""
    requires j10 <= j11 <= |s| && s[j10..j11] == ct.defaultKw
    ensures j10 < |s| && ToUpperChar(s[j10]) == 'D' && !IsSpace(s[j10])
  {
    FirstOfPiece(s, j10, j11, ct.defaultKw);
    assert SameIgnoringCase(ct.defaultKw[0 + 0], "DEFAULT"[0]);
    LetterChar(ct.defaultKw[0], 'D');
  }

  /** The optional nullability group takes exactly the nullability text, or nothing when there is none and no nullability keyword follows. */
  lemma NullabilityTo(s: string, ct: ColumnText, j7: nat, j8: nat, j9: nat)
    requires NullabilityText(ct.nullGap, ct.nullability)
    requires j7 <= j8 <= j9 <= |s|
    requires s[j7..j8] == ct.nullGap && s[j8..j9] == ct.nullability
    requires ct.nullability == "" ==>
      (SkipSpaces(s, j7) == j7 || (SkipSpaces(s, j7) < |s| && ToUpperChar(s[SkipSpaces(s, j7)]) == 'D'))
    ensures NullabilityAt(s, j7) == (j9, ClauseGroups(ct).nullability)
  {
    if ct.nullability != "" {
      NullabilityPresent(s, ct.nullGap, ct.nullability, j7, j8, j9);
    } else {
      var w := SkipSpaces(s, j7);
      if w != j7 {
        assert !SameIgnoringCase(s[w + 0], "NOT NULL"[0]);
        assert !SameIgnoringCase(s[w + 0], "NULL"[0]);
      }
    }
  }
  lemma NullabilityPresent(s: string, gap: string, kw: string, i: nat, j: nat, k: nat)
    requires Blanks(gap) && (Spells(kw, "NOT NULL") || Spells(kw, "NULL"))
    requires i <= j <= k <= |s| && s[i..j] == gap && s[j..k] == kw
    ensures NullabilityAt(s, i) == (k, Some(kw))
  {
    assert !IsSpace(s[j]) by {
      FirstOfPiece(s, j, k, kw);
      if Spells(kw, "NOT NULL") {
        assert SameIgnoringCase(kw[0 + 0], "NOT NULL"[0]);
      } else {
        assert SameIgnoringCase(kw[0 + 0], "NULL"[0]);
      }
      LetterChar(kw[0], 'N');
    }
    SpacesTo(s, i, j);
    if Spells(kw, "NOT NULL") {
      KeywordAt(s, j, k, "NOT NULL");
    } else {
      KeywordAt(s, j, k, "NULL");
      assert !MatchesAt(s, j, "NOT NULL") by {
        assert s[j..k][1] == s[j + 1];
        assert SameIgnoringCase(kw[0 + 1], "NULL"[1]);
        assert ToUpperChar(s[j + 1]) == 'U';
        assert !SameIgnoringCase(s[j + 1], "NOT NULL"[1]);
      }
    }
  }

  /**
   * What the character right after the type word can be: `(` opening a
   * size, a blank before a nullability or default, or the clause end.
   */
  lemma AfterType(s: string, ct: ColumnText, j6: nat, j7: nat, j8: nat, j9: nat, j10: nat, j11: nat, j12: nat, j13: nat)
    requires WellFormedColumn(ct)
    requires j6 <= j7 <= j8 <= j9 <= j10 <= j11 <= j12 <= j13 <= |s|
    requires s[j6..j7] == ct.size && s[j7..j8] == ct.nullGap && s[j8..j9] == ct.nullability
    requires s[j9..j10] == ct.defaultGap && s[j10..j11] == ct.defaultKw
    requires s[j11..j12] == ct.valueGap && s[j12..j13] == ct.defaultValue
    requires ClauseEnd(s, j13)
    ensures j6 == |s| || !IsWordChar(s[j6])
    ensures ct.size == "" ==> ClauseEnd(s, j7) || IsSpace(s[j7])
  {
    if ct.size != "" {
      FirstOfPiece(s, j6, j7, ct.size);
    } else if ct.nullGap != "" {
      FirstOfPiece(s, j7, j8, ct.nullGap);
    } else if ct.defaultGap != "" {
      FirstOfPiece(s, j9, j10, ct.defaultGap);
    }
  }

  /** When there is no nullability, the blanks after the type lead to `DEFAULT` or to the clause end. */
  lemma BeforeDefault(s: string, ct: ColumnText, j9: nat, j10: nat, j11: nat)
    requires DefaultText(ct.defaultGap, ct.defaultKw, ct.valueGap, ct.defaultValue)
    requires j9 <= j10 <= j11 <= |s|
    requires s[j9..j10] == ct.defaultGap && s[j10..j11] == ct.defaultKw
    requires ct.defaultGap == "" ==> ClauseEnd(s, j9)
    ensures SkipSpaces(s, j9) == j9 || (SkipSpaces(s, j9) < |s| && ToUpperChar(s[SkipSpaces(s, j9)]) == 'D')
  {
    if ct.defaultGap != "" {
      DefaultKeywordStart(s, ct, j10, j11);
      SpacesTo(s, j9, j10);
    } else {
      SpacesTo(s, j9, j9);
    }
  }

  /** The pieces of clause `ct` lie between the consecutive positions `o` of `s`. */
  predicate ColumnSpans(s: string, ct: ColumnText, o: seq<nat>)
  {
    |o| == 14
    && o[0] <= o[1] <= o[2] <= o[3] <= o[4] <= o[5] <= o[6] <= o[7] <= o[8] <= o[9] <= o[10] <= o[11] <= o[12] <= o[13] <= |s|
    && s[o[0]..o[1]] == ct.lead && s[o[1]..o[2]] == ct.openQuote && s[o[2]..o[3]] == ct.name
    && s[o[3]..o[4]] == ct.closeQuote && s[o[4]..o[5]] == ct.gap && s[o[5]..o[6]] == ct.colType
    && s[o[6]..o[7]] == ct.size && s[o[7]..o[8]] == ct.nullGap && s[o[8]..o[9]] == ct.nullability
    && s[o[9]..o[10]] == ct.defaultGap && s[o[10]..o[11]] == ct.defaultKw
    && s[o[11]..o[12]] == ct.valueGap && s[o[12]..o[13]] == ct.defaultValue
  }

  /** The name and type steps of the scanner over a clause laid out at `o` from `p`. */
  lemma ColumnWalkHead(s: string, ct: ColumnText, o: seq<nat>, p: nat)
    requires WellFormedColumn(ct) && ColumnSpans(s, ct, o) && o[0] == p && ClauseEnd(s, o[13])
    ensures SkipSpaces(s, p) == o[1] && OptionalQuote(s, o[1]) == o[2] && SkipWord(s, o[2]) == o[3] > o[2]
    ensures OptionalQuote(s, o[3]) == o[4] && SkipSpaces(s, o[4]) == o[5] > o[4] && SkipWord(s, o[5]) == o[6] > o[5]
  {
    FirstOfPiece(s, o[4], o[5], ct.gap);
    ColumnName(s, ct, p, o[1], o[2], o[3], o[4], o[5]);
    AfterType(s, ct, o[6], o[7], o[8], o[9], o[10], o[11], o[12], o[13]);
    FirstOfPiece(s, o[5], o[6], ct.colType);
    ColumnType(s, ct, o[4], o[5], o[6]);
  }

  /** The size step of the scanner ends where the size piece ends. */
  lemma ColumnSizeStep(s: string, ct: ColumnText, o: seq<nat>)
    requires WellFormedColumn(ct) && ColumnSpans(s, ct, o) && ClauseEnd(s, o[13])
    ensures SizeEnd(s, o[6]) == o[7]
  {
    AfterType(s, ct, o[6], o[7], o[8], o[9], o[10], o[11], o[12], o[13]);
    SizeTo(s, ct.size, o[6], o[7]);
  }

  /** The nullability step of the scanner ends where the nullability piece ends and captures it. */
  lemma ColumnNullabilityStep(s: string, ct: ColumnText, o: seq<nat>)
    requires WellFormedColumn(ct) && ColumnSpans(s, ct, o)
    requires ct.defaultGap == "" ==> ClauseEnd(s, o[9])
    ensures NullabilityAt(s, o[7]) == (o[9], ClauseGroups(ct).nullability)
  {
    if ct.nullability == "" {
      BeforeDefault(s, ct, o[9], o[10], o[11]);
    }
    NullabilityTo(s, ct, o[7], o[8], o[9]);
  }

  /** The default step of the scanner ends at the clause end and captures the default value. */
  lemma ColumnDefaultStep(s: string, ct: ColumnText, o: seq<nat>)
    requires WellFormedColumn(ct) && ColumnSpans(s, ct, o) && ClauseEnd(s, o[13])
    ensures DefaultAt(s, o[9]) == (o[13], ClauseGroups(ct).defaultValue)
  {
    DefaultTo(s, ct, o[9], o[10], o[11], o[12], o[13]);
  }

  /** The size, nullability and default steps of the scanner over the rest of the clause. */
  lemma ColumnWalkTail(s: string, ct: ColumnText, o: seq<nat>)
    requires WellFormedColumn(ct) && ColumnSpans(s, ct, o) && ClauseEnd(s, o[13])
    ensures SizeEnd(s, o[6]) == o[7]
    ensures NullabilityAt(s, o[7]) == (o[9], ClauseGroups(ct).nullability)
    ensures DefaultAt(s, o[9]) == (o[13], ClauseGroups(ct).defaultValue)
  {
    ColumnSizeStep(s, ct, o);
    if ct.defaultGap == "" {
      EmptyDefaultEnd(s, ct, o);
    }
    ColumnNullabilityStep(s, ct, o);
    ColumnDefaultStep(s, ct, o);
  }

  /** Without a default gap there is no default clause, so the nullability ends the clause. */
  lemma EmptyDefaultEnd(s: string, ct: ColumnText, o: seq<nat>)
    requires WellFormedColumn(ct) && ColumnSpans(s, ct, o) && ClauseEnd(s, o[13])
    requires ct.defaultGap == ""
    ensures ClauseEnd(s, o[9])
  {
    assert o[9] == o[13];
  }

  /** The column pattern succeeds at `p` once each of its steps is known to land where the layout `o` says. */
  lemma MatchColumnSteps(s: string, ct: ColumnText, o: seq<nat>, p: nat)
    requires |o| == 14 && o[0] == p && o[13] == p + |RenderColumn(ct)| && p <= |s|
    requires o[2] <= o[3] <= o[5] <= o[6] <= |s| && s[o[2]..o[3]] == ct.name && s[o[5]..o[6]] == ct.colType
    requires SkipSpaces(s, p) == o[1] && OptionalQuote(s, o[1]) == o[2] && SkipWord(s, o[2]) == o[3] > o[2]
    requires OptionalQuote(s, o[3]) == o[4] && SkipSpaces(s, o[4]) == o[5] > o[4] && SkipWord(s, o[5]) == o[6] > o[5]
    requires SizeEnd(s, o[6]) == o[7]
    requires NullabilityAt(s, o[7]) == (o[9], ClauseGroups(ct).nullability)
    requires DefaultAt(s, o[9]) == (o[13], ClauseGroups(ct).defaultValue)
    ensures MatchColumnAt(s, p) == Some(Found(p, p + |RenderColumn(ct)|, ClauseGroups(ct)))
  {
    assert ClauseGroups(ct) == ColumnGroups(s[o[2]..o[3]], s[o[5]..o[6]], NullabilityAt(s, SizeEnd(s, o[6])).1, DefaultAt(s, o[9]).1);
  }

  /** Where the pieces of a clause found at index `p` of `s` lie. */
  lemma ColumnLayout(s: string, p: nat, ct: ColumnText) returns (o: seq<nat>)
    requires p + |RenderColumn(ct)| <= |s| && s[p..p + |RenderColumn(ct)|] == RenderColumn(ct)
    ensures ColumnSpans(s, ct, o) && o[0] == p && o[13] == p + |RenderColumn(ct)|
  {
    var pre, post := Around(s, p, p + |RenderColumn(ct)|, RenderColumn(ct));
    o := PieceStarts(pre, ColumnPieces(ct), post);
  }

  /** A clause laid out at `o` in `s` from `p`, followed by the end or a comma, is matched at `p`, up to its end. */
  lemma ColumnMatchAt(s: string, ct: ColumnText, o: seq<nat>, p: nat)
    requires WellFormedColumn(ct) && ColumnSpans(s, ct, o) && o[0] == p && o[13] == p + |RenderColumn(ct)|
    requires ClauseEnd(s, p + |RenderColumn(ct)|)
    ensures MatchColumnAt(s, p) == Some(Found(p, p + |RenderColumn(ct)|, ClauseGroups(ct)))
  {
    ColumnWalkHead(s, ct, o, p);
    ColumnWalkTail(s, ct, o);
    MatchColumnSteps(s, ct, o, p);
  }

  /** A well-formed clause followed by the end or a comma is matched at its first character, exactly, with the expected captures. */
  lemma ColumnRoundTrip(s: string, p: nat, ct: ColumnText)
    requires WellFormedColumn(ct)
    requires p + |RenderColumn(ct)| <= |s| && s[p..p + |RenderColumn(ct)|] == RenderColumn(ct)
    requires ClauseEnd(s, p + |RenderColumn(ct)|)
    ensures MatchColumnAt(s, p) == Some(Found(p, p + |RenderColumn(ct)|, ClauseGroups(ct)))
  {
    var o := ColumnLayout(s, p, ct);
    ColumnMatchAt(s, ct, o, p);
  }

  /** The text before and after a piece found at `i` of `s`. */
  lemma Around(s: string, i: nat, j: nat, x: string) returns (pre: string, post: string)
    requires i <= j <= |s| && s[i..j] == x
    ensures s == pre + x + post && |pre| == i
  {
    pre, post := s[..i], s[j..];
    assert pre + x + post == s;
  }

  // ----- whole bodies -----

  /** The text of each clause. */
  function Renders(cts: seq<ColumnText>): (xs: seq<string>)
    ensures |xs| == |cts|
    ensures forall i :: 0 <= i < |cts| ==> xs[i] == RenderColumn(cts[i])
  {
    seq(|cts|, i requires 0 <= i < |cts| => RenderColumn(cts[i]))
  }

  /** Column clauses joined by commas, as they stand between the parentheses of a statement. */
  function RenderClauses(cts: seq<ColumnText>): string
  {
    Join(Renders(cts), ",")
  }

  /** The schema entry a well-formed clause is expected to produce. */
  function ClauseColumn(ct: ColumnText): Column
  {
    Column(ct.name, ct.colType, ct.nullability == "NOT NULL",
      if ct.defaultValue == "" then None else Some(ct.defaultValue), None)
  }

  /** At a comma the column pattern finds no name and fails. */
  lemma NoColumnAtComma(s: string, q: nat)
    requires q < |s| && s[q] == ','
    ensures MatchColumnAt(s, q).None?
  {
    SpacesTo(s, q, q);
  }

  /** At the end of the text the column pattern fails. */
  lemma NoColumnAtEnd(s: string)
    ensures MatchColumnAt(s, |s|).None?
  {
  }

  /** Where each piece of `Join(xs, ",")` lies when the joined text starts at `p`: start and end of every piece. */
  function Spans(p: nat, xs: seq<string>): (sp: seq<(nat, nat)>)
    ensures |sp| == |xs|
    decreases |xs|
  {
    if |xs| == 0 then []
    else [(p, p + |xs[0]|)] + Spans(p + |xs[0]| + 1, xs[1..])
  }

  /** The layout of comma-joined pieces: each piece sits at its span, a comma follows every piece but the last, and the last ends the text. */
  predicate JoinedAt(s: string, p: nat, xs: seq<string>, sp: seq<(nat, nat)>)
  {
    |sp| == |xs| &&
    (|xs| == 0 ==> p == |s|) &&
    (|xs| > 0 ==> sp[0].0 == p && sp[|xs| - 1].1 == |s|) &&
    (forall i :: 0 <= i < |xs| ==> sp[i].0 <= sp[i].1 <= |s| && s[sp[i].0..sp[i].1] == xs[i]) &&
    (forall i :: 0 <= i < |xs| - 1 ==> sp[i].1 < |s| && s[sp[i].1] == ',' && sp[i + 1].0 == sp[i].1 + 1)
  }

  /** The text after `p` is the first piece, then (when more follow) a comma and the rest joined. */
  lemma JoinHead(s: string, p: nat, xs: seq<string>)
    requires |xs| > 0 && p <= |s| && s[p..] == Join(xs, ",")
    ensures p + |xs[0]| <= |s| && s[p..p + |xs[0]|] == xs[0]
    ensures |xs| == 1 ==> p + |xs[0]| == |s|
    ensures |xs| > 1 ==> p + |xs[0]| < |s| && s[p + |xs[0]|] == ',' && s[p + |xs[0]| + 1..] == Join(xs[1..], ",")
  {
    var q := p + |xs[0]|;
    var rest := if |xs| == 1 then "" else "," + Join(xs[1..], ",");
    SplitAfter(s, p, xs[0], rest);
    if |xs| > 1 {
      assert s[q..][0] == ',';
      assert s[q + 1..] == s[q..][1..];
    }
  }

  /** Splitting the text that follows `p` into a piece and what comes after it. */
  lemma SplitAfter(s: string, p: nat, r: string, rest: string)
    requires p <= |s| && s[p..] == r + rest
    ensures p + |r| <= |s| && s[p..p + |r|] == r && s[p + |r|..] == rest
  {
    assert s[p..][..|r|] == r;
    assert s[p + |r|..] == s[p..][|r|..];
  }

  /** Comma-joined pieces that run from `p` to the end of the text lie at their spans. */
  lemma {:induction false} JoinLayout(s: string, p: nat, xs: seq<string>)
    requires p <= |s| && s[p..] == Join(xs, ",")
    ensures JoinedAt(s, p, xs, Spans(p, xs))
    decreases |xs|
  {
    if |xs| == 0 {
      assert |s[p..]| == 0;
    } else {
      JoinHead(s, p, xs);
      if |xs| > 1 {
        JoinLayout(s, p + |xs[0]| + 1, xs[1..]);
      }
      SpansCons(p, xs);
      JoinedCons(s, p, xs, Spans(p + |xs[0]| + 1, xs[1..]), Spans(p, xs));
    }
  }

  lemma SpansCons(p: nat, xs: seq<string>)
    requires |xs| > 0
    ensures Spans(p, xs) == [(p, p + |xs[0]|)] + Spans(p + |xs[0]| + 1, xs[1..])
    ensures |xs| == 1 ==> Spans(p + |xs[0]| + 1, xs[1..]) == []
  {
  }

  /** A piece at `p` followed by a comma and laid-out pieces (or by the end of the text) is laid out. */
  lemma JoinedCons(s: string, p: nat, xs: seq<string>, tail: seq<(nat, nat)>, sp: seq<(nat, nat)>)
    requires |xs| > 0 && p + |xs[0]| <= |s| && s[p..p + |xs[0]|] == xs[0]
    requires |xs| == 1 ==> p + |xs[0]| == |s| && tail == []
    requires |xs| > 1 ==> p + |xs[0]| < |s| && s[p + |xs[0]|] == ',' && JoinedAt(s, p + |xs[0]| + 1, xs[1..], tail)
    requires sp == [(p, p + |xs[0]|)] + tail
    ensures JoinedAt(s, p, xs, sp)
  {
    PiecesCons(s, xs, sp);
    if |xs| > 1 {
      CommasCons(s, xs, sp);
      assert sp[|xs| - 1] == tail[|xs| - 2];
    }
  }

  lemma PiecesCons(s: string, xs: seq<string>, sp: seq<(nat, nat)>)
    requires |xs| > 0 && |sp| == |xs|
    requires sp[0].0 <= sp[0].1 <= |s| && s[sp[0].0..sp[0].1] == xs[0]
    requires forall i :: 0 <= i < |xs| - 1 ==> sp[1..][i].0 <= sp[1..][i].1 <= |s| && s[sp[1..][i].0..sp[1..][i].1] == xs[1..][i]
    ensures forall i :: 0 <= i < |xs| ==> sp[i].0 <= sp[i].1 <= |s| && s[sp[i].0..sp[i].1] == xs[i]
  {
    forall i | 1 <= i < |xs| ensures sp[i].0 <= sp[i].1 <= |s| && s[sp[i].0..sp[i].1] == xs[i] {
      assert sp[i] == sp[1..][i - 1] && xs[i] == xs[1..][i - 1];
    }
  }

  lemma CommasCons(s: string, xs: seq<string>, sp: seq<(nat, nat)>)
    requires |xs| > 1 && |sp| == |xs|
    requires sp[0].1 < |s| && s[sp[0].1] == ',' && sp[1].0 == sp[0].1 + 1
    requires forall i :: 0 <= i < |xs| - 2 ==> sp[1..][i].1 < |s| && s[sp[1..][i].1] == ',' && sp[1..][i + 1].0 == sp[1..][i].1 + 1
    ensures forall i :: 0 <= i < |xs| - 1 ==> sp[i].1 < |s| && s[sp[i].1] == ',' && sp[i + 1].0 == sp[i].1 + 1
  {
    forall i | 1 <= i < |xs| - 1 ensures sp[i].1 < |s| && s[sp[i].1] == ',' && sp[i + 1].0 == sp[i].1 + 1 {
      assert sp[i] == sp[1..][i - 1] && sp[i + 1] == sp[1..][i];
    }
  }

  /** Matches whose captures are, one for one and in order, those the clauses are expected to produce. */
  predicate GroupsAgree(ms: seq<ColumnMatch>, cts: seq<ColumnText>)
  {
    |ms| == |cts| && forall i :: 0 <= i < |cts| ==> ms[i].groups == ClauseGroups(cts[i])
  }

  predicate AllWellFormed(cts: seq<ColumnText>)
  {
    forall i :: 0 <= i < |cts| ==> WellFormedColumn(cts[i])
  }

  /** The matches a run of clauses laid out at `sp` is expected to produce. */
  function ExpectedMatches(sp: seq<(nat, nat)>, cts: seq<ColumnText>): (ms: seq<ColumnMatch>)
    requires |sp| == |cts|
    ensures GroupsAgree(ms, cts)
    ensures forall i :: 0 <= i < |cts| ==> ms[i] == Found(sp[i].0, sp[i].1, ClauseGroups(cts[i]))
  {
    seq(|cts|, i requires 0 <= i < |cts| => Found(sp[i].0, sp[i].1, ClauseGroups(cts[i])))
  }

  /** Every clause laid out in the text is matched at its start, up to its end. */
  lemma ClausesMatch(s: string, p: nat, cts: seq<ColumnText>, sp: seq<(nat, nat)>, ms: seq<ColumnMatch>)
    requires AllWellFormed(cts) && JoinedAt(s, p, Renders(cts), sp)
    requires ms == ExpectedMatches(sp, cts)
    ensures forall i :: 0 <= i < |ms| ==> ColumnAt(s)(ms[i].start) == Some(ms[i])
  {
    forall i | 0 <= i < |ms| ensures ColumnAt(s)(ms[i].start) == Some(ms[i]) {
      ClauseMatchAt(s, p, cts, sp, i);
    }
  }

  /** The clause laid out at span `i` is matched exactly there. */
  lemma ClauseMatchAt(s: string, p: nat, cts: seq<ColumnText>, sp: seq<(nat, nat)>, i: nat)
    requires AllWellFormed(cts) && JoinedAt(s, p, Renders(cts), sp) && i < |cts|
    ensures sp[i].0 <= |s| && MatchColumnAt(s, sp[i].0) == Some(Found(sp[i].0, sp[i].1, ClauseGroups(cts[i])))
  {
    assert Renders(cts)[i] == RenderColumn(cts[i]);
    assert ClauseEnd(s, sp[i].1) by {
      if i < |cts| - 1 {
        assert s[sp[i].1] == ',';
      }
    }
    ColumnRoundTrip(s, sp[i].0, cts[i]);
  }

  /** Between laid-out clauses, at each comma, the pattern fails, and the next clause starts right after it. */
  lemma CommasFail(s: string, p: nat, cts: seq<ColumnText>, sp: seq<(nat, nat)>, ms: seq<ColumnMatch>)
    requires JoinedAt(s, p, Renders(cts), sp)
    requires ms == ExpectedMatches(sp, cts)
    ensures forall i :: 0 <= i < |ms| - 1 ==> ms[i].end < |s| && ColumnAt(s)(ms[i].end).None? && ms[i + 1].start == ms[i].end + 1
  {
    forall i | 0 <= i < |ms| - 1 ensures ms[i].end < |s| && ColumnAt(s)(ms[i].end).None? && ms[i + 1].start == ms[i].end + 1 {
      NoColumnAtComma(s, sp[i].1);
    }
  }

  /** The global loop over a text ending in comma-separated well-formed clauses reports one match per clause, in order, with the expected captures. */
  lemma ClausesFrom(s: string, p: nat, cts: seq<ColumnText>)
    requires AllWellFormed(cts)
    requires p <= |s| && s[p..] == RenderClauses(cts)
    ensures GroupsAgree(AllMatches(ColumnAt(s), |s|, p), cts)
  {
    JoinLayout(s, p, Renders(cts));
    var sp := Spans(p, Renders(cts));
    var ms := ExpectedMatches(sp, cts);
    ClausesMatch(s, p, cts, sp, ms);
    CommasFail(s, p, cts, sp, ms);
    NoColumnAtEnd(s);
    assert |ms| == 0 ==> p == |s|;
    assert |ms| > 0 ==> ms[0].start == p && ms[|ms| - 1].end == |s|;
    SeparatedMatches(ColumnAt(s), |s|, p, ms);
  }

  /** A column's entry is the expected one when its captures are the clause's. */
  lemma ClauseColumnOfGroups(ct: ColumnText, g: ColumnGroups)
    requires g == ClauseGroups(ct)
    ensures ColumnOfMatch(g) == ClauseColumn(ct)
  {
  }

  /** Comma-separated well-formed clauses are read back as exactly their columns, in order. */
  lemma BodyRoundTrip(cts: seq<ColumnText>)
    requires AllWellFormed(cts)
    ensures BodySchema(RenderClauses(cts)) == seq(|cts|, i requires 0 <= i < |cts| => ClauseColumn(cts[i]))
  {
    var body := RenderClauses(cts);
    ClausesFrom(body, 0, cts);
    var ms := ColumnMatches(body);
    assert GroupsAgree(ms, cts);
    forall i | 0 <= i < |cts| ensures ColumnOfMatch(ms[i].groups) == ClauseColumn(cts[i]) {
      ClauseColumnOfGroups(cts[i], ms[i].groups);
    }
  }

  /**
   * A statement whose body is comma-separated well-formed clauses yields one
   * table with exactly those columns: nothing else is read from the text.
   */
  lemma StatementRoundTrip(c: CreateText, cts: seq<ColumnText>)
    requires WellFormedCreate(c) && c.body == RenderClauses(cts)
    requires AllWellFormed(cts)
    ensures DumpTables(RenderCreate(c))
      == [(c.name, Table(seq(|cts|, i requires 0 <= i < |cts| => ClauseColumn(cts[i])), [], 0))]
  {
    SingleStatementDump(c);
    BodyRoundTrip(cts);
  }

  /** Only the exact upper-case capture counts as NOT NULL: a clause written with `not null` yields a nullable column. */
  lemma LowerCaseNotNullIsNullable(ct: ColumnText)
    requires WellFormedColumn(ct) && ct.nullability == "not null"
    ensures BodySchema(RenderColumn(ct)) == [Column(ct.name, ct.colType, false, ClauseGroups(ct).defaultValue, None)]
  {
    assert RenderClauses([ct]) == RenderColumn(ct) by {
      assert Renders([ct]) == [RenderColumn(ct)];
    }
    BodyRoundTrip([ct]);
    assert ClauseColumn(ct) == Column(ct.name, ct.colType, false, ClauseGroups(ct).defaultValue, None);
  }

  /** Where each of four words lies in the text that joins them with single blanks. */
  lemma FourWordsLayout(s: string, n: string, t: string, a: string, b: string)
    requires s == n + " " + t + " " + a + " " + b
    ensures var p1 := |n|; var p3 := p1 + 1 + |t|;
      && p3 + 1 + |a| + 1 + |b| == |s|
      && s[0..p1] == n && s[p1] == ' ' && s[p1 + 1..p3] == t && s[p3] == ' '
      && s[p3 + 1..p3 + 1 + |a|] == a && s[p3 + 1 + |a|] == ' ' && s[p3 + 1 + |a| + 1..p3 + 1 + |a| + 1 + |b|] == b
  {
    assert s == n + [' '] + t + [' '] + a + [' '] + b;
  }

  /** The column pattern at `p` once its name and type steps are known and nothing optional follows the type. */
  lemma PlainColumnSteps(s: string, p: nat, b: nat, c: nat, d: nat, e: nat, f: nat)
    requires p <= |s|
    requires OptionalQuote(s, SkipSpaces(s, p)) == b && SkipWord(s, b) == c > b
    requires OptionalQuote(s, c) == d && SkipSpaces(s, d) == e > d && SkipWord(s, e) == f > e
    requires SizeEnd(s, f) == f && NullabilityAt(s, f) == (f, None) && DefaultAt(s, f) == (f, None)
    ensures MatchColumnAt(s, p) == Some(Found(p, f, ColumnGroups(s[b..c], s[e..f], None, None)))
  {
  }

  /** A blank and then a word that starts neither `NOT NULL`, `NULL` nor `DEFAULT`: no size, nullability or default is read. */
  lemma NothingOptional(s: string, i: nat)
    requires i + 1 < |s| && s[i] == ' ' && IsWordChar(s[i + 1])
    requires !SameIgnoringCase(s[i + 1], 'N') && !SameIgnoringCase(s[i + 1], 'D')
    ensures SizeEnd(s, i) == i && NullabilityAt(s, i) == (i, None) && DefaultAt(s, i) == (i, None)
  {
    WordCharIsNoSeparator(s[i + 1]);
    SpacesTo(s, i, i + 1);
    assert "NOT NULL"[0] == 'N' && "NULL"[0] == 'N' && "DEFAULT"[0] == 'D';
  }

  /** At the end of the text no size, nullability or default is read. */
  lemma NothingOptionalAtEnd(s: string)
    ensures SizeEnd(s, |s|) == |s| && NullabilityAt(s, |s|) == (|s|, None) && DefaultAt(s, |s|) == (|s|, None)
  {
    SpacesTo(s, |s|, |s|);
  }

  /** A word at `i`, then a blank, then a word ending at `j`, followed by a blank or the end: the name and type steps. */
  lemma TwoWordSteps(s: string, i: nat, x: string, y: string)
    requires IsWord(x) && IsWord(y)
    requires i + |x| + 1 + |y| <= |s|
    requires s[i..i + |x|] == x && s[i + |x|] == ' ' && s[i + |x| + 1..i + |x| + 1 + |y|] == y
    requires i + |x| + 1 + |y| == |s| || s[i + |x| + 1 + |y|] == ' '
    ensures OptionalQuote(s, i) == i && SkipWord(s, i) == i + |x|
    ensures OptionalQuote(s, i + |x|) == i + |x| && SkipSpaces(s, i + |x|) == i + |x| + 1
    ensures SkipWord(s, i + |x| + 1) == i + |x| + 1 + |y|
  {
    assert s[i] == x[0] && s[i + |x| + 1] == y[0];
    WordTo(s, i, i + |x|);
    SpacesTo(s, i + |x|, i + |x| + 1);
    WordTo(s, i + |x| + 1, i + |x| + 1 + |y|);
  }

  /** A word, a blank, a word, then a blank before a word that starts neither `NOT NULL`, `NULL` nor `DEFAULT`: the pattern takes the first two words only. */
  lemma FirstTwoWordsMatch(s: string, n: string, t: string)
    requires IsWord(n) && IsWord(t)
    requires |n| + 1 + |t| + 1 < |s|
    requires s[0..|n|] == n && s[|n|] == ' ' && s[|n| + 1..|n| + 1 + |t|] == t && s[|n| + 1 + |t|] == ' '
    requires IsWordChar(s[|n| + 1 + |t| + 1])
    requires !SameIgnoringCase(s[|n| + 1 + |t| + 1], 'N') && !SameIgnoringCase(s[|n| + 1 + |t| + 1], 'D')
    ensures MatchColumnAt(s, 0) == Some(Found(0, |n| + 1 + |t|, ColumnGroups(n, t, None, None)))
  {
    assert s[0] == n[0];
    WordCharIsNoSeparator(n[0]);
    SpacesTo(s, 0, 0);
    TwoWordSteps(s, 0, n, t);
    NothingOptional(s, |n| + 1 + |t|);
    PlainColumnSteps(s, 0, 0, |n|, |n|, |n| + 1, |n| + 1 + |t|);
  }

  /** A blank, a word, a blank and a last word running to the end of the text: the pattern takes the two words as a name and a type. */
  lemma LastTwoWordsMatch(s: string, p: nat, a: string, b: string)
    requires IsWord(a) && IsWord(b)
    requires p + 1 + |a| + 1 + |b| == |s|
    requires s[p] == ' ' && s[p + 1..p + 1 + |a|] == a && s[p + 1 + |a|] == ' ' && s[p + 1 + |a| + 1..p + 1 + |a| + 1 + |b|] == b
    ensures MatchColumnAt(s, p) == Some(Found(p, |s|, ColumnGroups(a, b, None, None)))
  {
    assert s[p + 1] == a[0];
    WordCharIsNoSeparator(a[0]);
    SpacesTo(s, p, p + 1);
    TwoWordSteps(s, p + 1, a, b);
    NothingOptionalAtEnd(s);
    PlainColumnSteps(s, p, p + 1, p + 1 + |a|, p + 1 + |a|, p + 1 + |a| + 1, |s|);
  }

  /** A match from the start that ends where the next match runs to the end of the text: exactly those two matches. */
  lemma TwoColumnMatches(s: string, m1: ColumnMatch, m2: ColumnMatch)
    requires MatchColumnAt(s, 0) == Some(m1) && m1.end <= |s|
    requires MatchColumnAt(s, m1.end) == Some(m2) && m2.end == |s|
    ensures ColumnMatches(s) == [m1, m2]
  {
    NoColumnAtEnd(s);
    MatchesFromMatch(ColumnAt(s), |s|, 0, m1);
    MatchesFromMatch(ColumnAt(s), |s|, m1.end, m2);
    MatchesAtEnd(ColumnAt(s), |s|);
  }

  /** The schema of a body with exactly two column matches. */
  lemma SchemaOfTwo(s: string, m1: ColumnMatch, m2: ColumnMatch)
    requires ColumnMatches(s) == [m1, m2]
    ensures BodySchema(s) == [ColumnOfMatch(m1.groups), ColumnOfMatch(m2.groups)]
  {
  }

  /** Four words laid out with single blanks between them read as two columns. */
  lemma FourWordsColumns(s: string, n: string, t: string, a: string, b: string)
    requires IsWord(n) && IsWord(t) && IsWord(a) && IsWord(b)
    requires !SameIgnoringCase(a[0], 'N') && !SameIgnoringCase(a[0], 'D')
    requires var p := |n| + 1 + |t|;
      && p + 1 + |a| + 1 + |b| == |s|
      && s[0..|n|] == n && s[|n|] == ' ' && s[|n| + 1..p] == t && s[p] == ' '
      && s[p + 1..p + 1 + |a|] == a && s[p + 1 + |a|] == ' ' && s[p + 1 + |a| + 1..p + 1 + |a| + 1 + |b|] == b
    ensures BodySchema(s) == [Column(n, t, false, None, None), Column(a, b, false, None, None)]
  {
    var p := |n| + 1 + |t|;
    var m1, m2 := Found(0, p, ColumnGroups(n, t, None, None)), Found(p, |s|, ColumnGroups(a, b, None, None));
    assert s[p + 1] == a[0];
    FirstTwoWordsMatch(s, n, t);
    LastTwoWordsMatch(s, p, a, b);
    TwoColumnMatches(s, m1, m2);
    SchemaOfTwo(s, m1, m2);
  }

  /**
   * The column pattern is applied across the whole body, not clause by
   * clause: a definition followed by two more words, as in
   * `id INTEGER PRIMARY KEY`, reads as two columns, and neither is a
   * primary key. The third word must not start with N or D in either case,
   * as the pattern could read it, in part, as `NOT NULL`, `NULL` or a
   * `DEFAULT` clause of the first column.
   */
  lemma TrailingWordsReadAsColumn(s: string, n: string, t: string, a: string, b: string)
    requires IsWord(n) && IsWord(t) && IsWord(a) && IsWord(b)
    requires !SameIgnoringCase(a[0], 'N') && !SameIgnoringCase(a[0], 'D')
    requires s == n + " " + t + " " + a + " " + b
    ensures BodySchema(s) == [Column(n, t, false, None, None), Column(a, b, false, None, None)]
  {
    FourWordsLayout(s, n, t, a, b);
    FourWordsColumns(s, n, t, a, b);
  }

  /** `id INTEGER PRIMARY KEY` gives the columns `id`/`INTEGER` and `PRIMARY`/`KEY`. */
  lemma PrimaryKeyReadsAsTwoColumns()
    ensures BodySchema("id INTEGER PRIMARY KEY")
      == [Column("id", "INTEGER", false, None, None), Column("PRIMARY", "KEY", false, None, None)]
  {
    TrailingWordsReadAsColumn("id INTEGER PRIMARY KEY", "id", "INTEGER", "PRIMARY", "KEY");
  }
}
