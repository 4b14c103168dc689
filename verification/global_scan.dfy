/**
 * The `while ((m = re.exec(text)) !== null)` idiom of a JavaScript regular
 * expression with the `g` flag, for any pattern: each `exec` reports the
 * leftmost match at or after `lastIndex`, and the next search resumes
 * where that match ended.
 */
module GlobalScan {
  import opened Wrappers

  /** A match of a pattern: where it starts, where it ends, and its captures. */
  datatype Found<T> = Found(start: nat, end: nat, groups: T)

  /**
   * `at(p)` is the pattern tried at index `p` of a text of length `len`
   * and nowhere else: a match it reports starts at `p`, is not empty and
   * stays inside the text.
   */
  ghost predicate Anchored<T>(at: nat -> Option<Found<T>>, len: nat)
  {
    forall p: nat :: p <= len && at(p).Some? ==> at(p).value.start == p < at(p).value.end <= len
  }

  /** One `exec` from `lastIndex` `from`: the leftmost match. */
  function Leftmost<T>(at: nat -> Option<Found<T>>, len: nat, from: nat): (r: Option<Found<T>>)
    requires Anchored(at, len)
    requires from <= len
    ensures r.Some? ==> from <= r.value.start <= len && at(r.value.start) == r
    ensures r.Some? ==> forall q :: from <= q < r.value.start ==> at(q).None?
    ensures r.None? ==> forall q :: from <= q <= len ==> at(q).None?
    decreases len - from
  {
    if at(from).Some? || from == len then at(from) else Leftmost(at, len, from + 1)
  }

  /** Every match of the global loop from `from`, left to right, none overlapping the next. */
  function AllMatches<T>(at: nat -> Option<Found<T>>, len: nat, from: nat): (ms: seq<Found<T>>)
    requires Anchored(at, len)
    requires from <= len
    ensures forall i :: 0 <= i < |ms| ==> from <= ms[i].start <= len && at(ms[i].start) == Some(ms[i])
    ensures forall i :: 0 <= i < |ms| - 1 ==> ms[i].end <= ms[i + 1].start
    ensures |ms| == 0 <==> forall q :: from <= q <= len ==> at(q).None?
    decreases len - from
  {
    match Leftmost(at, len, from)
    case None => []
    case Some(m) =>
      var rest := AllMatches(at, len, m.end);
      assert forall i :: 0 <= i < |rest| ==> m.end <= rest[i].start;
      [m] + rest
  }

  /** The pattern fails everywhere between `from` and the first match reported. */
  lemma NoneSkippedBefore<T>(at: nat -> Option<Found<T>>, len: nat, from: nat)
    requires Anchored(at, len)
    requires from <= len
    ensures var ms := AllMatches(at, len, from);
      |ms| > 0 ==> forall q :: from <= q < ms[0].start ==> at(q).None?
  {
    match Leftmost(at, len, from)
    case None =>
    case Some(m) =>
      assert AllMatches(at, len, from)[0] == m;
  }

  /** The pattern fails everywhere from the end of the last match reported to the end of the text. */
  lemma {:induction false} NoneSkippedAfter<T>(at: nat -> Option<Found<T>>, len: nat, from: nat)
    requires Anchored(at, len)
    requires from <= len
    ensures var ms := AllMatches(at, len, from);
      |ms| > 0 ==> forall q :: ms[|ms| - 1].end <= q <= len ==> at(q).None?
    decreases len - from
  {
    match Leftmost(at, len, from)
    case None =>
    case Some(m) =>
      var rest := AllMatches(at, len, m.end);
      var ms := AllMatches(at, len, from);
      assert ms == [m] + rest;
      if |rest| > 0 {
        NoneSkippedAfter(at, len, m.end);
        assert ms[|ms| - 1] == rest[|rest| - 1];
      }
  }

  /** The pattern fails everywhere between the end of one match reported and the start of the next. */
  lemma {:induction false} NoneSkippedBetween<T>(at: nat -> Option<Found<T>>, len: nat, from: nat)
    requires Anchored(at, len)
    requires from <= len
    ensures var ms := AllMatches(at, len, from);
      forall i, q :: 0 <= i < |ms| - 1 && ms[i].end <= q < ms[i + 1].start ==> at(q).None?
    decreases len - from
  {
    match Leftmost(at, len, from)
    case None =>
    case Some(m) =>
      NoneSkippedBetween(at, len, m.end);
      NoneSkippedBefore(at, len, m.end);
      var rest := AllMatches(at, len, m.end);
      var ms := AllMatches(at, len, from);
      assert ms == [m] + rest;
      forall i, q | 0 <= i < |ms| - 1 && ms[i].end <= q < ms[i + 1].start
        ensures at(q).None?
      {
        if i > 0 {
          assert ms[i] == rest[i - 1] && ms[i + 1] == rest[i];
        } else {
          assert ms[1] == rest[0];
        }
      }
  }

  /** `NoneSkippedBetween` at one index of one gap. */
  lemma NoneSkippedBetweenAt<T>(at: nat -> Option<Found<T>>, len: nat, from: nat, ms: seq<Found<T>>, i: nat, q: nat)
    requires Anchored(at, len)
    requires from <= len && ms == AllMatches(at, len, from)
    requires i < |ms| - 1 && ms[i].end <= q < ms[i + 1].start
    ensures at(q).None?
  {
    NoneSkippedBetween(at, len, from);
  }

  /** When the pattern matches right at `from`, the loop reports that match first and carries on from its end. */
  lemma MatchesFromAnchor<T>(at: nat -> Option<Found<T>>, len: nat, from: nat)
    requires Anchored(at, len)
    requires from <= len && at(from).Some?
    ensures AllMatches(at, len, from) == [at(from).value] + AllMatches(at, len, at(from).value.end)
  {
  }

  /** When the pattern fails at `from` (and `from` is not the end), the loop's matches are those from the next index. */
  lemma MatchesSkip<T>(at: nat -> Option<Found<T>>, len: nat, from: nat)
    requires Anchored(at, len)
    requires from < len && at(from).None?
    ensures AllMatches(at, len, from) == AllMatches(at, len, from + 1)
  {
  }

  /** `MatchesSkip` with the next index named. */
  lemma MatchesSkipTo<T>(at: nat -> Option<Found<T>>, len: nat, from: nat, next: nat)
    requires Anchored(at, len)
    requires from < len && at(from).None? && next == from + 1
    ensures AllMatches(at, len, from) == AllMatches(at, len, next)
  {
    MatchesSkip(at, len, from);
  }

  /** `MatchesFromAnchor` for a known match `m`. */
  lemma MatchesFromMatch<T>(at: nat -> Option<Found<T>>, len: nat, from: nat, m: Found<T>)
    requires Anchored(at, len)
    requires from <= len && at(from) == Some(m)
    ensures m.end <= len
    ensures AllMatches(at, len, from) == [m] + AllMatches(at, len, m.end)
  {
    MatchesFromAnchor(at, len, from);
  }

  /** From the end of the text, where the pattern fails, the loop reports nothing. */
  lemma MatchesAtEnd<T>(at: nat -> Option<Found<T>>, len: nat)
    requires Anchored(at, len) && at(len).None?
    ensures AllMatches(at, len, len) == []
  {
  }

  /** The matches after the first of a separated run: the same conditions hold of them, one position past the first match's end. */
  ghost predicate Separated<T>(at: nat -> Option<Found<T>>, len: nat, from: nat, ms: seq<Found<T>>)
  {
    (|ms| == 0 ==> from == len) &&
    (|ms| > 0 ==> ms[0].start == from && ms[|ms| - 1].end == len) &&
    (forall i :: 0 <= i < |ms| ==> at(ms[i].start) == Some(ms[i])) &&
    (forall i :: 0 <= i < |ms| - 1 ==> ms[i].end < len && at(ms[i].end).None? && ms[i + 1].start == ms[i].end + 1)
  }

  lemma SeparatedTail<T>(at: nat -> Option<Found<T>>, len: nat, from: nat, ms: seq<Found<T>>)
    requires |ms| > 1 && Separated(at, len, from, ms)
    ensures ms[0].end < len && at(ms[0].end).None?
    ensures Separated(at, len, ms[0].end + 1, ms[1..])
  {
    var rest := ms[1..];
    assert forall i :: 0 <= i < |rest| ==> rest[i] == ms[i + 1];
  }

  /**
   * The loop over a text in which the pattern matches at `from`, then fails at
   * the position where each match ends and matches again right after it, and
   * where the last match ends at the end of the text, reports exactly those
   * matches.
   */
  lemma {:induction false} SeparatedMatches<T>(at: nat -> Option<Found<T>>, len: nat, from: nat, ms: seq<Found<T>>)
    requires Anchored(at, len) && from <= len
    requires Separated(at, len, from, ms)
    requires at(len).None?
    ensures AllMatches(at, len, from) == ms
    decreases |ms|, 1
  {
    if |ms| == 0 {
      MatchesAtEnd(at, len);
    } else if |ms| == 1 {
      SeparatedOne(at, len, from, ms);
    } else {
      SeparatedMore(at, len, from, ms);
    }
  }

  lemma SeparatedOne<T>(at: nat -> Option<Found<T>>, len: nat, from: nat, ms: seq<Found<T>>)
    requires Anchored(at, len) && from <= len
    requires |ms| == 1 && Separated(at, len, from, ms)
    requires at(len).None?
    ensures AllMatches(at, len, from) == ms
  {
    var m := ms[0];
    assert at(from) == Some(m);
    MatchesFromMatch(at, len, from, m);
    MatchesAtEnd(at, len);
    assert ms == [m];
  }

  lemma {:induction false} SeparatedMore<T>(at: nat -> Option<Found<T>>, len: nat, from: nat, ms: seq<Found<T>>)
    requires Anchored(at, len) && from <= len
    requires |ms| > 1 && Separated(at, len, from, ms)
    requires at(len).None?
    ensures AllMatches(at, len, from) == ms
    decreases |ms|, 0
  {
    var m := ms[0];
    assert at(from) == Some(m);
    SeparatedTail(at, len, from, ms);
    var next := m.end + 1;
    var rest := ms[1..];
    SeparatedMatches(at, len, next, rest);
    MatchesSkipTo(at, len, m.end, next);
    MatchesFromMatch(at, len, from, m);
    ConsChain(AllMatches(at, len, from), m, AllMatches(at, len, m.end), AllMatches(at, len, next), ms);
  }

  lemma ConsChain<X>(whole: seq<X>, m: X, rest: seq<X>, next: seq<X>, ms: seq<X>)
    requires |ms| > 0 && ms[0] == m && whole == [m] + rest && rest == next && next == ms[1..]
    ensures whole == ms
  {
    assert ms == [m] + ms[1..];
  }
}
