/**
 * Character classes and string helpers shared by the parsers and the
 * prompt builders: the JavaScript regular-expression classes `\s` and `\w`,
 * ASCII case folding, substring containment and decimal rendering.
 */
module Text {

  /** `\s` of a JavaScript regular expression: the ECMAScript WhiteSpace and LineTerminator characters. */
  predicate IsSpace(c: char)
  {
    var n := c as int;
    n == 0x09 || n == 0x0A || n == 0x0B || n == 0x0C || n == 0x0D || n == 0x20
    || n == 0xA0 || n == 0x1680 || (0x2000 <= n <= 0x200A) || n == 0x2028 || n == 0x2029
    || n == 0x202F || n == 0x205F || n == 0x3000 || n == 0xFEFF
  }

  /** `\w` of a JavaScript regular expression without the `u` flag: `[A-Za-z0-9_]`. */
  predicate IsWordChar(c: char)
  {
    ('A' <= c <= 'Z') || ('a' <= c <= 'z') || ('0' <= c <= '9') || c == '_'
  }

  /** The characters `.` refuses to match in a JavaScript regular expression. */
  predicate IsLineTerminator(c: char)
  {
    c == '\n' || c == '\r' || c as int == 0x2028 || c as int == 0x2029
  }

  predicate IsDigit(c: char)
  {
    '0' <= c <= '9'
  }

  predicate IsWord(s: string)
  {
    |s| > 0 && forall i :: 0 <= i < |s| ==> IsWordChar(s[i])
  }

  predicate AllSpaces(s: string)
  {
    forall i :: 0 <= i < |s| ==> IsSpace(s[i])
  }

  function ToLowerChar(c: char): char
  {
    if 'A' <= c <= 'Z' then (c as int + 32) as char else c
  }

  function ToUpperChar(c: char): char
  {
    if 'a' <= c <= 'z' then (c as int - 32) as char else c
  }

  /** ASCII lower-casing, character by character. */
  function ToLower(s: string): (r: string)
    ensures |r| == |s|
    ensures forall i :: 0 <= i < |s| ==> r[i] == ToLowerChar(s[i])
  {
    seq(|s|, i requires 0 <= i < |s| => ToLowerChar(s[i]))
  }

  lemma ToLowerIdempotent(s: string)
    ensures ToLower(ToLower(s)) == ToLower(s)
  {
  }

  lemma ToLowerConcat(a: string, b: string)
    ensures ToLower(a + b) == ToLower(a) + ToLower(b)
  {
  }

  /**
   * Equality under the case folding of a JavaScript `/i` pattern without
   * the `u` flag: only ASCII letters fold, because a non-ASCII character
   * whose upper case is ASCII is left as it is.
   */
  predicate SameIgnoringCase(a: char, b: char)
  {
    ToUpperChar(a) == ToUpperChar(b)
  }

  /** `lit` occurs at index `i` of `s`, compared case-insensitively. */
  predicate MatchesAt(s: string, i: nat, lit: string)
  {
    i + |lit| <= |s| && forall k :: 0 <= k < |lit| ==> SameIgnoringCase(s[i + k], lit[k])
  }

  /** `k` occurs in `s` at index `i`. */
  ghost predicate OccursAt(s: string, k: string, i: int)
  {
    0 <= i && i + |k| <= |s| && s[i..i + |k|] == k
  }

  /** Substring containment (`kw in query` in Python, `includes` in JavaScript). */
  function Contains(s: string, k: string): (r: bool)
    ensures r <==> exists i :: OccursAt(s, k, i)
    decreases |s|
  {
    if |k| > |s| then
      assert forall i :: !OccursAt(s, k, i);
      false
    else if s[..|k|] == k then
      assert OccursAt(s, k, 0);
      true
    else
      var rest := Contains(s[1..], k);
      assert forall i :: 1 <= i ==> (OccursAt(s, k, i) <==> OccursAt(s[1..], k, i - 1)) by {
        forall i | 1 <= i ensures OccursAt(s, k, i) <==> OccursAt(s[1..], k, i - 1) {
          if i + |k| <= |s| {
            var here, there := s[i..i + |k|], s[1..][i - 1..i - 1 + |k|];
            assert forall j :: 0 <= j < |k| ==> here[j] == there[j];
            assert here == there;
          }
        }
      }
      assert !OccursAt(s, k, 0);
      if rest then
        assert exists i :: OccursAt(s, k, i) by {
          var i :| OccursAt(s[1..], k, i);
          assert OccursAt(s, k, i + 1);
        }
        true
      else
        false
  }

  /** A string occurs in any longer string that begins or ends with it. */
  lemma ContainsConcat(a: string, k: string, b: string)
    ensures Contains(a + k + b, k)
  {
    assert OccursAt(a + k + b, k, |a|) by {
      assert (a + k + b)[|a|..|a| + |k|] == k;
    }
  }

  function DigitChar(d: nat): char
    requires d < 10
  {
    "0123456789"[d]
  }

  function DigitValue(c: char): nat
  {
    if '0' <= c <= '9' then c as int - '0' as int else 0
  }

  /** Decimal rendering of a non-negative integer, as JavaScript template literals and Python f-strings print it. */
  function NatToString(n: nat): (r: string)
    ensures |r| >= 1
    ensures forall i :: 0 <= i < |r| ==> IsDigit(r[i])
    ensures |r| > 1 ==> r[0] != '0'
  {
    if n < 10 then [DigitChar(n)] else NatToString(n / 10) + [DigitChar(n % 10)]
  }

  /** Reads a string of decimal digits back as a number. */
  function ParseDigits(s: string): nat
  {
    if |s| == 0 then 0 else 10 * ParseDigits(s[..|s| - 1]) + DigitValue(s[|s| - 1])
  }

  /** The decimal rendering is read back as the number it renders: distinct numbers render differently. */
  lemma {:induction false} ParseNatToString(n: nat)
    ensures ParseDigits(NatToString(n)) == n
  {
    if n >= 10 {
      var r := NatToString(n);
      assert r[..|r| - 1] == NatToString(n / 10);
      ParseNatToString(n / 10);
    }
  }

  /** `sep.join(parts)` in Python, `parts.join(sep)` in JavaScript. */
  function Join(parts: seq<string>, sep: string): string
  {
    if |parts| == 0 then ""
    else if |parts| == 1 then parts[0]
    else parts[0] + sep + Join(parts[1..], sep)
  }

  /** The concatenation of a sequence of strings. */
  function Concat(parts: seq<string>): string
  {
    if |parts| == 0 then "" else parts[0] + Concat(parts[1..])
  }

  lemma {:induction false} ConcatAppend(a: seq<string>, b: seq<string>)
    ensures Concat(a + b) == Concat(a) + Concat(b)
  {
    if |a| > 0 {
      assert (a + b)[1..] == a[1..] + b;
      calc {
        Concat(a + b);
        (a + b)[0] + Concat((a + b)[1..]);
        a[0] + Concat(a[1..] + b);
        { ConcatAppend(a[1..], b); }
        a[0] + (Concat(a[1..]) + Concat(b));
      }
    } else {
      assert a + b == b;
    }
  }

  lemma ConcatSingle(x: string)
    ensures Concat([x]) == x
  {
    assert [x][1..] == [];
  }

  /** Where the `i`-th part begins in the concatenation of `parts`. */
  function PartStart(parts: seq<string>, i: nat): nat
    requires i <= |parts|
  {
    |Concat(parts[..i])|
  }

  /** The `i`-th part sits in the concatenation between its own start and the start of the next part. */
  lemma ConcatPart(parts: seq<string>, i: nat)
    requires i < |parts|
    ensures PartStart(parts, i + 1) == PartStart(parts, i) + |parts[i]| <= |Concat(parts)|
    ensures Concat(parts)[PartStart(parts, i)..PartStart(parts, i + 1)] == parts[i]
  {
    var before, here, after := parts[..i], parts[i], parts[i + 1..];
    assert parts == before + ([here] + after);
    assert parts[..i + 1] == before + [here];
    ConcatAppend(before, [here] + after);
    ConcatAppend([here], after);
    ConcatAppend(before, [here]);
    ConcatSingle(here);
  }
}
