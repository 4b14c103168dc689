/**
 * An insertion-ordered string-keyed map: the model of a JavaScript object
 * used as a dictionary (`result.tables[name] = …`) and of a Python `dict`.
 * Assigning to a key that is already present replaces its value in place;
 * assigning to a new key appends it, so iteration follows first insertion.
 */
module OrderedMap {
  import opened Wrappers

  type OMap<V> = seq<(string, V)>

  function Keys<V>(m: OMap<V>): (ks: seq<string>)
    ensures |ks| == |m|
    ensures forall i :: 0 <= i < |m| ==> ks[i] == m[i].0
  {
    seq(|m|, i requires 0 <= i < |m| => m[i].0)
  }

  predicate DistinctKeys<V>(m: OMap<V>)
  {
    forall i, j :: 0 <= i < j < |m| ==> m[i].0 != m[j].0
  }

  /** The index of the entry for `k` (the first one), or -1. */
  function IndexOf<V>(m: OMap<V>, k: string): (r: int)
    ensures -1 <= r < |m|
    ensures r >= 0 ==> m[r].0 == k && forall j :: 0 <= j < r ==> m[j].0 != k
    ensures r < 0 <==> k !in Keys(m)
  {
    if |m| == 0 then -1
    else if m[|m| - 1].0 == k && IndexOf(m[..|m| - 1], k) < 0 then |m| - 1
    else IndexOf(m[..|m| - 1], k)
  }

  /** Two indices that both satisfy the first-occurrence description coincide. */
  lemma FirstOccurrenceUnique<V>(m: OMap<V>, k: string, i: int)
    requires 0 <= i < |m| && m[i].0 == k
    requires forall j :: 0 <= j < i ==> m[j].0 != k
    ensures IndexOf(m, k) == i
  {
  }

  /** The value stored under `k`, if any. */
  function Get<V>(m: OMap<V>, k: string): (r: Option<V>)
    ensures r.Some? <==> k in Keys(m)
    ensures r.Some? ==> exists i :: 0 <= i < |m| && m[i] == (k, r.value)
  {
    var i := IndexOf(m, k);
    if i < 0 then None else Some(m[i].1)
  }

  /** In a map whose keys are distinct, `Get` finds the entry at its index. */
  lemma GetAtIndex<V>(m: OMap<V>, i: nat)
    requires DistinctKeys(m)
    requires i < |m|
    ensures Get(m, m[i].0) == Some(m[i].1)
  {
    FirstOccurrenceUnique(m, m[i].0, i);
  }

  /** `m[k] = v`: replace in place when `k` is present, otherwise append. */
  function Put<V>(m: OMap<V>, k: string, v: V): (r: OMap<V>)
    ensures k in Keys(m) ==> Keys(r) == Keys(m)
    ensures k !in Keys(m) ==> Keys(r) == Keys(m) + [k]
    ensures Get(r, k) == Some(v)
    ensures forall k' :: k' != k ==> Get(r, k') == Get(m, k')
    ensures DistinctKeys(m) ==> DistinctKeys(r)
  {
    var i := IndexOf(m, k);
    if i < 0 then
      var r := m + [(k, v)];
      assert Keys(r) == Keys(m) + [k];
      FirstOccurrenceUnique(r, k, |m|);
      forall k' | k' != k ensures Get(r, k') == Get(m, k') {
        var j := IndexOf(m, k');
        if j >= 0 {
          FirstOccurrenceUnique(r, k', j);
        }
      }
      r
    else
      var r := m[i := (k, v)];
      assert Keys(r) == Keys(m);
      FirstOccurrenceUnique(r, k, i);
      forall k' | k' != k ensures Get(r, k') == Get(m, k') {
        var j := IndexOf(m, k');
        if j >= 0 {
          FirstOccurrenceUnique(r, k', j);
        }
      }
      r
  }

  /** A run of assignments `m[k1] = v1; m[k2] = v2; …` in order. */
  function PutAll<V>(m: OMap<V>, entries: seq<(string, V)>): OMap<V>
  {
    if |entries| == 0 then m
    else
      var last := entries[|entries| - 1];
      Put(PutAll(m, entries[..|entries| - 1]), last.0, last.1)
  }

  /** The value of the last entry for `k`, if `k` occurs. */
  function LastFor<V>(entries: seq<(string, V)>, k: string): Option<V>
  {
    if |entries| == 0 then None
    else if entries[|entries| - 1].0 == k then Some(entries[|entries| - 1].1)
    else LastFor(entries[..|entries| - 1], k)
  }

  /** The last entry for `k` in a run of entries is the one `LastFor` reports. */
  lemma {:induction false} LastForIndex<V>(entries: seq<(string, V)>, k: string, i: nat)
    requires i < |entries| && entries[i].0 == k
    requires forall j :: i < j < |entries| ==> entries[j].0 != k
    ensures LastFor(entries, k) == Some(entries[i].1)
  {
    if i < |entries| - 1 {
      var init := entries[..|entries| - 1];
      LastForIndex(init, k, i);
    }
  }

  /** After a run of assignments, each key holds the value assigned to it last; keys never assigned keep their value. */
  lemma {:induction false} GetPutAll<V>(m: OMap<V>, entries: seq<(string, V)>, k: string)
    ensures Get(PutAll(m, entries), k) == if LastFor(entries, k).Some? then LastFor(entries, k) else Get(m, k)
  {
    if |entries| > 0 {
      GetPutAll(m, entries[..|entries| - 1], k);
    }
  }

  /** A run of assignments into a map with distinct keys keeps the keys distinct. */
  lemma {:induction false} PutAllDistinct<V>(m: OMap<V>, entries: seq<(string, V)>)
    requires DistinctKeys(m)
    ensures DistinctKeys(PutAll(m, entries))
  {
    if |entries| > 0 {
      PutAllDistinct(m, entries[..|entries| - 1]);
    }
  }

  /** Assignments with pairwise distinct keys into an empty map leave exactly those entries, in assignment order. */
  lemma {:induction false} PutAllFresh<V>(entries: seq<(string, V)>)
    requires DistinctKeys(entries)
    ensures PutAll([], entries) == entries
  {
    if |entries| > 0 {
      DistinctInit(entries);
      PutAllFresh(entries[..|entries| - 1]);
      LastKeyFresh(entries);
      PutFresh(entries[..|entries| - 1], entries[|entries| - 1]);
      assert entries[..|entries| - 1] + [entries[|entries| - 1]] == entries;
    }
  }

  /** Assigning to a key that is not present appends exactly that entry. */
  lemma PutFresh<V>(m: OMap<V>, e: (string, V))
    requires e.0 !in Keys(m)
    ensures Put(m, e.0, e.1) == m + [e]
  {
    assert IndexOf(m, e.0) < 0;
  }

  /** Dropping the last entry keeps the keys distinct. */
  lemma DistinctInit<V>(entries: seq<(string, V)>)
    requires DistinctKeys(entries) && |entries| > 0
    ensures DistinctKeys(entries[..|entries| - 1])
  {
    var init := entries[..|entries| - 1];
    forall i, j | 0 <= i < j < |init| ensures init[i].0 != init[j].0 {
      assert init[i] == entries[i] && init[j] == entries[j];
    }
  }

  /** In a run with distinct keys, the last key does not occur earlier. */
  lemma LastKeyFresh<V>(entries: seq<(string, V)>)
    requires DistinctKeys(entries) && |entries| > 0
    ensures entries[|entries| - 1].0 !in Keys(entries[..|entries| - 1])
  {
    var init := entries[..|entries| - 1];
    forall i | 0 <= i < |init| ensures init[i].0 != entries[|entries| - 1].0 {
      assert init[i] == entries[i];
    }
  }

  lemma PutKeys<V>(m: OMap<V>, k: string, v: V, k': string)
    ensures k' in Keys(Put(m, k, v)) <==> k' in Keys(m) || k' == k
  {
  }

  /** The keys of a non-empty run are the keys of all but its last entry, then the last key. */
  lemma KeysInit<V>(entries: seq<(string, V)>)
    requires |entries| > 0
    ensures Keys(entries) == Keys(entries[..|entries| - 1]) + [entries[|entries| - 1].0]
  {
  }

  /** The keys after a run of assignments into an empty map are exactly the assigned keys. */
  lemma {:induction false} PutAllKeys<V>(entries: seq<(string, V)>, k: string)
    ensures k in Keys(PutAll([], entries)) <==> k in Keys(entries)
  {
    if |entries| > 0 {
      var init, last := entries[..|entries| - 1], entries[|entries| - 1];
      PutAllKeys(init, k);
      PutKeys(PutAll([], init), last.0, last.1, k);
      KeysInit(entries);
    }
  }

  /** A property every stored value has survives an assignment of a value that has it. */
  lemma PutPreserves<V>(m: OMap<V>, k: string, v: V, P: V -> bool)
    requires forall i :: 0 <= i < |m| ==> P(m[i].1)
    requires P(v)
    ensures forall i :: 0 <= i < |Put(m, k, v)| ==> P(Put(m, k, v)[i].1)
  {
  }

  /** A property of every stored and every assigned value holds of every value after a run of assignments. */
  lemma {:induction false} PutAllPreserves<V>(m: OMap<V>, entries: seq<(string, V)>, P: V -> bool)
    requires forall i :: 0 <= i < |m| ==> P(m[i].1)
    requires forall i :: 0 <= i < |entries| ==> P(entries[i].1)
    ensures forall i :: 0 <= i < |PutAll(m, entries)| ==> P(PutAll(m, entries)[i].1)
  {
    if |entries| > 0 {
      var init, last := entries[..|entries| - 1], entries[|entries| - 1];
      PutAllPreserves(m, init, P);
      PutPreserves(PutAll(m, init), last.0, last.1, P);
    }
  }
  /** Looking a key up after one more entry: an earlier entry for it wins, otherwise the new one answers. */
  lemma GetSnoc<V>(m: OMap<V>, e: (string, V), k: string)
    ensures Get(m + [e], k) == if k in Keys(m) then Get(m, k) else if e.0 == k then Some(e.1) else None
  {
    assert (m + [e])[..|m|] == m;
  }

  /** `map.delete(k)`: every entry for `k` is dropped and the others keep their order. */
  function Remove<V>(m: OMap<V>, k: string): (r: OMap<V>)
    ensures k !in Keys(r)
    ensures forall k' :: k' != k ==> Get(r, k') == Get(m, k')
    ensures forall i :: 0 <= i < |r| ==> r[i] in m
    ensures DistinctKeys(m) ==> DistinctKeys(r)
  {
    if |m| == 0 then []
    else
      var init, last := m[..|m| - 1], m[|m| - 1];
      var r := Remove(init, k);
      assert m == init + [last];
      forall k' | k' != k ensures Get(m, k') == Get(init, k') || last.0 != k {
        GetSnoc(init, last, k');
      }
      if last.0 == k then
        forall k' | k' != k ensures Get(r, k') == Get(m, k') {
          GetSnoc(init, last, k');
        }
        r
      else
        var r' := r + [last];
        forall k' | k' != k ensures Get(r', k') == Get(m, k') {
          GetSnoc(init, last, k');
          GetSnoc(r, last, k');
        }
        assert Keys(r') == Keys(r) + [last.0];
        assert DistinctKeys(m) ==> DistinctKeys(r') by {
          if DistinctKeys(m) {
            DistinctInit(m);
            LastKeyFresh(m);
            SnocDistinct(r, last);
          }
        }
        r'
  }

  /** Appending an entry whose key is new keeps the keys distinct. */
  lemma SnocDistinct<V>(m: OMap<V>, e: (string, V))
    requires DistinctKeys(m) && e.0 !in Keys(m)
    ensures DistinctKeys(m + [e])
  {
    var r := m + [e];
    forall i, j | 0 <= i < j < |r| ensures r[i].0 != r[j].0 {
      if j == |m| {
        assert r[i].0 == Keys(m)[i];
      }
    }
  }
}
