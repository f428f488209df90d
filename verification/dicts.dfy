/** Python dictionaries as association lists.

    A `Dict<K, V>` is a sequence of key/value pairs whose keys are pairwise
    distinct. Its order is the iteration order of the dictionary: assigning to
    a present key keeps its position, assigning to a new key appends it, and
    deleting a key closes the gap. (Python 2 promises no iteration order; this
    model fixes insertion order.) */
module Dicts {
  import opened Wrappers

  type Dict<K, V> = seq<(K, V)>

  function Keys<K(==), V>(d: Dict<K, V>): (ks: set<K>)
    ensures forall i :: 0 <= i < |d| ==> d[i].0 in ks
  {
    if |d| == 0 then {} else {d[0].0} + Keys(d[1..])
  }

  /** No key occurs twice. */
  predicate UniqueKeys<K(==), V>(d: Dict<K, V>) {
    |d| == 0 || (d[0].0 !in Keys(d[1..]) && UniqueKeys(d[1..]))
  }

  function Values<K, V>(d: Dict<K, V>): (vs: seq<V>)
    ensures |vs| == |d|
    ensures forall i :: 0 <= i < |d| ==> vs[i] == d[i].1
  {
    if |d| == 0 then [] else [d[0].1] + Values(d[1..])
  }

  /** The value stored under `k` (`d.get(k)`), or None when `k` is absent. */
  function Get<K(==), V>(d: Dict<K, V>, k: K): (r: Option<V>)
    ensures r.Some? <==> k in Keys(d)
    ensures r.Some? ==> (k, r.value) in d
  {
    if |d| == 0 then None
    else if d[0].0 == k then Some(d[0].1)
    else Get(d[1..], k)
  }

  /** `d[k] = v`: overwrite in place when `k` is present, append otherwise. */
  function Put<K(==), V>(d: Dict<K, V>, k: K, v: V): (r: Dict<K, V>)
    ensures Keys(r) == Keys(d) + {k}
    ensures k in Keys(d) ==> |r| == |d|
    ensures k !in Keys(d) ==> |r| == |d| + 1
    ensures UniqueKeys(d) ==> UniqueKeys(r)
  {
    if |d| == 0 then [(k, v)]
    else if d[0].0 == k then
      assert ([(k, v)] + d[1..])[1..] == d[1..];
      [(k, v)] + d[1..]
    else
      var rest := Put(d[1..], k, v);
      assert ([d[0]] + rest)[1..] == rest;
      [d[0]] + rest
  }

  /** `del d[k]`; no change when `k` is absent. */
  function Remove<K(==), V>(d: Dict<K, V>, k: K): (r: Dict<K, V>)
    ensures UniqueKeys(d) ==> Keys(r) == Keys(d) - {k}
    ensures k !in Keys(d) ==> r == d
    ensures UniqueKeys(d) && k in Keys(d) ==> |r| == |d| - 1
    ensures UniqueKeys(d) ==> UniqueKeys(r)
  {
    if |d| == 0 then []
    else if d[0].0 == k then Remove(d[1..], k)
    else
      var rest := Remove(d[1..], k);
      assert ([d[0]] + rest)[1..] == rest;
      [d[0]] + rest
  }

  lemma GetPut<K, V>(d: Dict<K, V>, k: K, v: V, k': K)
    ensures Get(Put(d, k, v), k') == if k' == k then Some(v) else Get(d, k')
  {
    if |d| == 0 {
    } else if d[0].0 == k {
      assert Put(d, k, v)[1..] == d[1..];
    } else {
      GetPut(d[1..], k, v, k');
      assert Put(d, k, v)[1..] == Put(d[1..], k, v);
    }
  }

  lemma GetRemove<K, V>(d: Dict<K, V>, k: K, k': K)
    requires UniqueKeys(d)
    ensures Get(Remove(d, k), k') == if k' == k then None else Get(d, k')
  {
    if |d| == 0 {
    } else if d[0].0 == k {
      GetRemove(d[1..], k, k');
    } else {
      GetRemove(d[1..], k, k');
      assert Remove(d, k)[1..] == Remove(d[1..], k);
    }
  }

  /** Adding a fresh key and deleting it again gives back the same dictionary. */
  lemma {:induction false} RemovePutFresh<K, V>(d: Dict<K, V>, k: K, v: V)
    requires k !in Keys(d)
    ensures Remove(Put(d, k, v), k) == d
  {
    if |d| > 0 {
      RemovePutFresh(d[1..], k, v);
      assert Put(d, k, v)[1..] == Put(d[1..], k, v);
      assert d == [d[0]] + d[1..];
    }
  }

  /** Every entry of `d[k] = v` is the new pair or was already in `d`. */
  lemma {:induction false} PutEntries<K, V>(d: Dict<K, V>, k: K, v: V, e: (K, V))
    requires e in Put(d, k, v)
    ensures e == (k, v) || e in d
  {
    if |d| > 0 && d[0].0 != k && e != d[0] {
      assert e in Put(d[1..], k, v);
      PutEntries(d[1..], k, v, e);
    }
  }

  /** Every entry left after `del d[k]` was already in `d`. */
  lemma {:induction false} RemoveEntries<K, V>(d: Dict<K, V>, k: K, e: (K, V))
    requires e in Remove(d, k)
    ensures e in d
  {
    if |d| > 0 {
      if d[0].0 == k || e != d[0] {
        assert e in Remove(d[1..], k);
        RemoveEntries(d[1..], k, e);
      }
    }
  }

  /** In a dictionary, a key's value is the value of its entry. */
  lemma {:induction false} GetEntry<K, V>(d: Dict<K, V>, k: K, v: V)
    requires UniqueKeys(d) && (k, v) in d
    ensures Get(d, k) == Some(v)
  {
    if d[0] != (k, v) {
      assert (k, v) in d[1..];
      assert k in Keys(d[1..]);
      GetEntry(d[1..], k, v);
    }
  }

  /** A key that is stored has an entry. */
  lemma {:induction false} KeyEntry<K, V>(d: Dict<K, V>, k: K) returns (i: nat)
    requires k in Keys(d)
    ensures i < |d| && d[i].0 == k
  {
    if d[0].0 == k {
      i := 0;
    } else {
      var j := KeyEntry(d[1..], k);
      i := j + 1;
    }
  }
}
