/** Python dictionaries in insertion order: pairs with distinct keys. Storing an
    existing key keeps its place, a new key goes to the end. */
module Dicts {
  import opened Wrappers

  type Dict<K, V> = seq<(K, V)>

  predicate Distinct<K(==), V>(d: Dict<K, V>) {
    forall i, j :: 0 <= i < j < |d| ==> d[i].0 != d[j].0
  }

  /** The position of a key, or the size of the dictionary. */
  function Find<K(==), V>(d: Dict<K, V>, k: K): (i: nat)
    ensures i <= |d|
    ensures forall j :: 0 <= j < i ==> d[j].0 != k
    ensures i < |d| ==> d[i].0 == k
  {
    if d == [] || d[0].0 == k then 0 else 1 + Find(d[1..], k)
  }

  predicate Has<K(==), V>(d: Dict<K, V>, k: K) { Find(d, k) < |d| }

  function Get<K(==), V>(d: Dict<K, V>, k: K): Option<V> {
    var i := Find(d, k);
    if i < |d| then Some(d[i].1) else None
  }

  function Put<K(==), V>(d: Dict<K, V>, k: K, v: V): (r: Dict<K, V>)
    ensures Distinct(d) ==> Distinct(r)
  {
    var i := Find(d, k);
    if i < |d| then d[i := (k, v)] else d + [(k, v)]
  }

  function Pop<K(==), V>(d: Dict<K, V>, k: K): (r: Dict<K, V>)
    ensures Distinct(d) ==> Distinct(r)
  {
    var i := Find(d, k);
    if i < |d| then d[..i] + d[i + 1..] else d
  }

  /** With distinct keys, a stored pair is what a lookup finds. */
  lemma GetAt<K, V>(d: Dict<K, V>, i: nat)
    requires Distinct(d) && i < |d|
    ensures Get(d, d[i].0) == Some(d[i].1) && Find(d, d[i].0) == i
  {}

  /** Storing keeps the place of every key there was; a new one goes to the end. */
  lemma PutPlaces<K, V>(d: Dict<K, V>, k: K, v: V)
    ensures |Put(d, k, v)| == |d| + (if Has(d, k) then 0 else 1)
    ensures forall i :: 0 <= i < |d| ==> Put(d, k, v)[i].0 == d[i].0 && (d[i].0 != k ==> Put(d, k, v)[i] == d[i])
    ensures !Has(d, k) ==> Put(d, k, v)[|d|] == (k, v)
  {}

  lemma GetPut<K, V>(d: Dict<K, V>, k: K, v: V, q: K)
    requires Distinct(d)
    ensures Get(Put(d, k, v), q) == if q == k then Some(v) else Get(d, q)
  {
    var i, r := Find(d, k), Put(d, k, v);
    assert r[i] == (k, v);
    GetAt(r, i);
    var j := Find(d, q);
    if q != k {
      if j < |d| {
        assert r[j] == d[j];
        GetAt(r, j);
      }
    }
  }

  lemma GetPop<K, V>(d: Dict<K, V>, k: K, q: K)
    requires Distinct(d)
    ensures Get(Pop(d, k), q) == if q == k then None else Get(d, q)
  {
    var i, r, j := Find(d, k), Pop(d, k), Find(d, q);
    if i < |d| {
      assert forall x :: 0 <= x < i ==> r[x] == d[x];
      assert forall x :: i <= x < |r| ==> r[x] == d[x + 1];
      if q != k && j < |d| {
        GetAt(r, if j < i then j else j - 1);
      }
    }
  }
}
