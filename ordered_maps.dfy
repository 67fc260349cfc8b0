/** A JavaScript `Map` or plain object used as a dictionary: entries in insertion
    order, each key once; setting an existing key keeps its place. */
module OrderedMaps {
  import opened Wrappers

  type Entries<K, V> = seq<(K, V)>

  function Keys<K, V>(m: Entries<K, V>): (ks: seq<K>)
    ensures |ks| == |m|
    ensures forall i :: 0 <= i < |m| ==> ks[i] == m[i].0
  {
    seq(|m|, i requires 0 <= i < |m| => m[i].0)
  }

  predicate UniqueKeys<K(==), V>(m: Entries<K, V>)
  {
    forall i, j :: 0 <= i < j < |m| ==> m[i].0 != m[j].0
  }

  /** Where `k` first sits at or after `from`, if anywhere. */
  function KeyIndex<K(==), V>(m: Entries<K, V>, k: K, from: nat): (r: Option<nat>)
    requires from <= |m|
    ensures r.Some? ==> from <= r.value < |m| && m[r.value].0 == k
    ensures r.Some? ==> forall j :: from <= j < r.value ==> m[j].0 != k
    ensures r.None? ==> forall j :: from <= j < |m| ==> m[j].0 != k
    decreases |m| - from
  {
    if from == |m| then None
    else if m[from].0 == k then Some(from)
    else KeyIndex(m, k, from + 1)
  }

  /** `m.get(k)`: the value stored under `k`, if any. */
  function Get<K(==), V>(m: Entries<K, V>, k: K): (r: Option<V>)
    ensures r.None? <==> k !in Keys(m)
    ensures r.Some? ==> (k, r.value) in m
    ensures UniqueKeys(m) ==> forall i :: 0 <= i < |m| && m[i].0 == k ==> r == Some(m[i].1)
  {
    var i := KeyIndex(m, k, 0);
    if i.Some? then
      assert Keys(m)[i.value] == k;
      Some(m[i.value].1)
    else None
  }

  /** `m.set(k, v)`: replaces the value in place when `k` is present, appends otherwise. */
  function Put<K(==), V>(m: Entries<K, V>, k: K, v: V): (r: Entries<K, V>)
    ensures k in Keys(m) ==> |r| == |m| && forall i :: 0 <= i < |m| ==> r[i].0 == m[i].0
    ensures k !in Keys(m) ==> r == m + [(k, v)]
    ensures forall i :: 0 <= i < |m| && m[i].0 != k ==> r[i] == m[i]
    ensures UniqueKeys(m) ==> forall i :: 0 <= i < |r| && r[i].0 == k ==> r[i].1 == v
    ensures (k, v) in r
  {
    var i := KeyIndex(m, k, 0);
    if i.Some? then
      assert Keys(m)[i.value] == k;
      var r := m[i.value := (k, v)];
      assert r[i.value] == (k, v);
      r
    else
      var r := m + [(k, v)];
      assert r[|m|] == (k, v);
      r
  }

  lemma {:induction false} PutKeepsUnique<K, V>(m: Entries<K, V>, k: K, v: V)
    requires UniqueKeys(m)
    ensures UniqueKeys(Put(m, k, v))
  {
    var r := Put(m, k, v);
    if k in Keys(m) {
      assert forall i :: 0 <= i < |r| ==> r[i].0 == Keys(r)[i] == Keys(m)[i] == m[i].0;
    } else {
      assert forall i :: 0 <= i < |m| ==> m[i].0 == Keys(m)[i];
    }
  }

  /** Reading back a key just set gives the value set; the other keys read as before. */
  lemma GetPut<K, V>(m: Entries<K, V>, k: K, v: V, other: K)
    requires UniqueKeys(m)
    ensures Get(Put(m, k, v), k) == Some(v)
    ensures other != k ==> Get(Put(m, k, v), other) == Get(m, other)
  {
    var r := Put(m, k, v);
    PutKeepsUnique(m, k, v);
    assert k in Keys(r) by {
      var i :| 0 <= i < |r| && r[i] == (k, v);
      assert Keys(r)[i] == k;
    }
    if other != k {
      if other in Keys(m) {
        var j :| 0 <= j < |m| && Keys(m)[j] == other;
        assert r[j] == m[j];
      } else if k !in Keys(m) {
        assert Keys(r) == Keys(m) + [k];
      }
    }
  }
}
