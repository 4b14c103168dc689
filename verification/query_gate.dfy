/**
 * `preprocess_user_query` in DataBase-Analyser/server/main.py: a question
 * is accepted only when it mentions one of the analysis topics and asks
 * for no picture. Keywords are found by substring containment in the
 * lower-cased question, not as words.
 */
module QueryGate {
  import Text

  const DbKeywords: seq<string> := ["database", "db", "sqlite", "sql", "table", "query"]
  const ExcelCsvKeywords: seq<string> := ["excel", "csv", "column", "row", "formula", "spreadsheet"]
  const AnalysisKeywords: seq<string> := ["analysis", "analyze", "statistics", "report", "summary"]
  const ImageKeywords: seq<string> := ["image", "picture", "graph", "chart", "plot"]

  const ImageMessage := "I cannot generate or provide images. I can only analyze database, CSV, or Excel files."
  const TopicMessage := "I can only answer questions related to database analysis, SQL queries, or Excel/CSV formulas and operations."

  /** Some keyword of `kws` occurs in `q`. */
  predicate Mentions(q: string, kws: seq<string>)
  {
    exists i :: 0 <= i < |kws| && Text.Contains(q, kws[i])
  }

  /** `any(kw in query for kw in kws)`, tried left to right. */
  function AnyKeyword(q: string, kws: seq<string>): (r: bool)
    ensures r <==> Mentions(q, kws)
  {
    if |kws| == 0 then false
    else if Text.Contains(q, kws[0]) then true
    else
      var rest := AnyKeyword(q, kws[1..]);
      assert Mentions(q, kws[1..]) ==> Mentions(q, kws) by {
        if Mentions(q, kws[1..]) {
          var i :| 0 <= i < |kws[1..]| && Text.Contains(q, kws[1..][i]);
          assert Text.Contains(q, kws[i + 1]);
        }
      }
      assert Mentions(q, kws) ==> Mentions(q, kws[1..]) by {
        if Mentions(q, kws) {
          var i :| 0 <= i < |kws| && Text.Contains(q, kws[i]);
          assert i > 0 && kws[1..][i - 1] == kws[i];
        }
      }
      rest
  }

  /** All seventeen topic keywords. */
  const TopicKeywords: seq<string> := DbKeywords + ExcelCsvKeywords + AnalysisKeywords

  /** The validation: `(is_valid, message)`, with the picture check taking precedence over relevance. */
  function PreprocessUserQuery(query: string): (r: (bool, string))
    ensures Mentions(Text.ToLower(query), ImageKeywords) ==> r == (false, ImageMessage)
    ensures !Mentions(Text.ToLower(query), ImageKeywords) && !Mentions(Text.ToLower(query), TopicKeywords) ==> r == (false, TopicMessage)
    ensures r.0 <==> !Mentions(Text.ToLower(query), ImageKeywords) && Mentions(Text.ToLower(query), TopicKeywords)
    ensures r.0 ==> r.1 == ""
  {
    var q := Text.ToLower(query);
    var isRelevant := AnyKeyword(q, DbKeywords) || AnyKeyword(q, ExcelCsvKeywords) || AnyKeyword(q, AnalysisKeywords);
    var asksForImage := AnyKeyword(q, ImageKeywords);
    TopicsSplit(q);
    if asksForImage then (false, ImageMessage)
    else if !isRelevant then (false, TopicMessage)
    else (true, "")
  }

  /** Mentioning a topic is mentioning a keyword of one of the three groups. */
  lemma TopicsSplit(q: string)
    ensures Mentions(q, TopicKeywords) <==> Mentions(q, DbKeywords) || Mentions(q, ExcelCsvKeywords) || Mentions(q, AnalysisKeywords)
  {
    var t := TopicKeywords;
    assert |DbKeywords| == 6 && |ExcelCsvKeywords| == 6;
    assert forall i :: 0 <= i < 6 ==> t[i] == DbKeywords[i] && t[i + 6] == ExcelCsvKeywords[i];
    assert forall i :: 0 <= i < |AnalysisKeywords| ==> t[i + 12] == AnalysisKeywords[i];
    if Mentions(q, TopicKeywords) {
      var i :| 0 <= i < |t| && Text.Contains(q, t[i]);
      if i < 6 {
        assert Text.Contains(q, DbKeywords[i]);
      } else if i < 12 {
        assert Text.Contains(q, ExcelCsvKeywords[i - 6]);
      } else {
        assert Text.Contains(q, AnalysisKeywords[i - 12]);
      }
    }
    if Mentions(q, DbKeywords) {
      var i :| 0 <= i < |DbKeywords| && Text.Contains(q, DbKeywords[i]);
      assert Text.Contains(q, t[i]);
    }
    if Mentions(q, ExcelCsvKeywords) {
      var i :| 0 <= i < |ExcelCsvKeywords| && Text.Contains(q, ExcelCsvKeywords[i]);
      assert Text.Contains(q, t[i + 6]);
    }
    if Mentions(q, AnalysisKeywords) {
      var i :| 0 <= i < |AnalysisKeywords| && Text.Contains(q, AnalysisKeywords[i]);
      assert Text.Contains(q, t[i + 12]);
    }
  }

  /** The question is lower-cased first, so the verdict ignores ASCII case. */
  lemma CaseInsensitive(query: string)
    ensures PreprocessUserQuery(query) == PreprocessUserQuery(Text.ToLower(query))
  {
    Text.ToLowerIdempotent(query);
  }

  /** A question that mentions both a topic and a picture is refused as a picture request. */
  lemma ImageTakesPrecedence(a: string, b: string, c: string, i: nat, j: nat)
    requires i < |ImageKeywords| && j < |TopicKeywords|
    ensures PreprocessUserQuery(a + ImageKeywords[i] + b + TopicKeywords[j] + c) == (false, ImageMessage)
  {
    var query := a + ImageKeywords[i] + b + TopicKeywords[j] + c;
    var kw := ImageKeywords[i];
    assert Text.ToLower(kw) == kw;
    Text.ToLowerConcat(a, kw + b + TopicKeywords[j] + c);
    Text.ToLowerConcat(kw, b + TopicKeywords[j] + c);
    assert query == a + kw + (b + TopicKeywords[j] + c);
    assert Text.ToLower(query) == Text.ToLower(a) + kw + Text.ToLower(b + TopicKeywords[j] + c);
    Text.ContainsConcat(Text.ToLower(a), kw, Text.ToLower(b + TopicKeywords[j] + c));
  }

  /** Containment is not word matching: `paragraph` is refused because it contains `graph`. */
  lemma ParagraphIsAPicture()
    ensures PreprocessUserQuery("paragraph") == (false, ImageMessage)
  {
    assert Text.ToLower("paragraph") == "paragraph";
    assert "paragraph" == "para" + "graph" + "";
    Text.ContainsConcat("para", "graph", "");
    assert ImageKeywords[2] == "graph";
  }

  /** Containment is not word matching: `tomorrow` is accepted because it contains `row`. */
  lemma TomorrowIsATopic()
    ensures PreprocessUserQuery("tomorrow") == (true, "")
  {
    var q := "tomorrow";
    assert Text.ToLower(q) == q;
    assert q == "tomor" + "row" + "";
    Text.ContainsConcat("tomor", "row", "");
    assert TopicKeywords[9] == "row";
    forall i | 0 <= i < |ImageKeywords| ensures !Text.Contains(q, ImageKeywords[i]) {
      forall k | 0 <= k ensures !Text.OccursAt(q, ImageKeywords[i], k) {
        if k + |ImageKeywords[i]| <= |q| {
          assert q[k..k + |ImageKeywords[i]|][0] == q[k];
          assert q[k..k + |ImageKeywords[i]|][1] == q[k + 1];
        }
      }
    }
  }
}
