/** A JavaScript `Map` with string-like keys, as an association list in insertion order:
    `set` on a present key replaces the value in place, on a new key appends it. */
module OrderedMaps {
  import opened JsValues

  type OrderedMap<K, V> = seq<(K, V)>

  function KeysOf<K, V>(m: OrderedMap<K, V>): (ks: seq<K>)
    ensures |ks| == |m|
    ensures forall i :: 0 <= i < |m| ==> ks[i] == m[i].0
  {
    seq(|m|, i requires 0 <= i < |m| => m[i].0)
  }

  /** `Array.from(map.values())`. */
  function ValuesOf<K, V>(m: OrderedMap<K, V>): (vs: seq<V>)
    ensures |vs| == |m|
    ensures forall i :: 0 <= i < |m| ==> vs[i] == m[i].1
  {
    seq(|m|, i requires 0 <= i < |m| => m[i].1)
  }

  predicate DistinctKeys<K(==), V>(m: OrderedMap<K, V>) {
    forall i, j :: 0 <= i < j < |m| ==> m[i].0 != m[j].0
  }

  /** Position of the first entry with key `k`. */
  function FindKey<K(==), V>(m: OrderedMap<K, V>, k: K): (r: Option<nat>)
    ensures r.None? <==> k !in KeysOf(m)
    ensures r.Some? ==> r.value < |m| && m[r.value].0 == k
    ensures r.Some? ==> forall j :: 0 <= j < r.value ==> m[j].0 != k
    decreases |m|
  {
    if |m| == 0 then None
    else if m[|m| - 1].0 == k && k !in KeysOf(m[..|m| - 1]) then Some(|m| - 1)
    else
      var r := FindKey(m[..|m| - 1], k);
      assert KeysOf(m) == KeysOf(m[..|m| - 1]) + [m[|m| - 1].0];
      r
  }

  /** `map.get(k)`. */
  function Get<K(==), V>(m: OrderedMap<K, V>, k: K): (r: Option<V>)
    ensures r.None? <==> k !in KeysOf(m)
  {
    match FindKey(m, k)
    case None => None
    case Some(i) => Some(m[i].1)
  }

  /** With distinct keys, every entry is found by its own key. */
  lemma GetEntry<K, V>(m: OrderedMap<K, V>, i: nat)
    requires DistinctKeys(m) && i < |m|
    ensures Get(m, m[i].0) == Some(m[i].1)
  {
  }

  /** `map.set(k, v)`: afterwards `k` maps to `v`, every other key keeps its value, and
      the key order is unchanged unless `k` is new, in which case it comes last. */
  function Put<K(==,!new), V>(m: OrderedMap<K, V>, k: K, v: V): (r: OrderedMap<K, V>)
    ensures Get(r, k) == Some(v)
    ensures forall k' :: k' != k ==> Get(r, k') == Get(m, k')
    ensures k in KeysOf(m) ==> KeysOf(r) == KeysOf(m)
    ensures k !in KeysOf(m) ==> KeysOf(r) == KeysOf(m) + [k]
    ensures DistinctKeys(m) ==> DistinctKeys(r)
  {
    match FindKey(m, k)
    case Some(i) =>
      var r := m[i := (k, v)];
      assert KeysOf(r) == KeysOf(m);
      r
    case None =>
      var r := m + [(k, v)];
      assert KeysOf(r) == KeysOf(m) + [k];
      r
  }
}
