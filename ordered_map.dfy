/**
 * PHP's ordered arrays with string keys: a key order (insertion order, each
 * key once) and a lookup table. Assigning to a key already present changes its
 * value and keeps its place; assigning to a new key appends it.
 */
module OrderedMap {

  datatype OMap<K(==, !new), V> = OMap(keys: seq<K>, vals: map<K, V>) {
    predicate Valid() {
      && (forall i, j :: 0 <= i < j < |keys| ==> keys[i] != keys[j])
      && (forall k :: k in vals ==> k in keys)
      && (forall k :: k in keys ==> k in vals)
    }
  }

  type OrdMap<K(==, !new), V> = m: OMap<K, V> | m.Valid() witness OMap([], map[])

  function Empty<K(==, !new), V>(): (r: OrdMap<K, V>)
    ensures r.keys == [] && r.vals == map[]
  {
    OMap([], map[])
  }

  /** `$m[$k] = $v`. */
  function Put<K(==, !new), V>(m: OrdMap<K, V>, k: K, v: V): (r: OrdMap<K, V>)
    ensures r.vals == m.vals[k := v]
    ensures k in m.vals ==> r.keys == m.keys
    ensures k !in m.vals ==> r.keys == m.keys + [k]
  {
    if k in m.vals then OMap(m.keys, m.vals[k := v]) else OMap(m.keys + [k], m.vals[k := v])
  }

  /** `array_values($m)`: the values in key order. */
  function ValuesOf<K(==, !new), V>(m: OrdMap<K, V>): (r: seq<V>)
    ensures |r| == |m.keys|
  {
    seq(|m.keys|, i requires 0 <= i < |m.keys| => m.vals[m.keys[i]])
  }

  /**
   * Assignment never reorders what was there: the keys present before keep
   * their positions, at most one key is added, and every other key keeps its
   * value.
   */
  lemma PutKeepsOrder<K(!new), V>(m: OrdMap<K, V>, k: K, v: V)
    ensures |m.keys| <= |Put(m, k, v).keys| <= |m.keys| + 1
    ensures Put(m, k, v).keys[..|m.keys|] == m.keys
    ensures Put(m, k, v).vals[k] == v
    ensures forall x :: x in m.vals && x != k ==> Put(m, k, v).vals[x] == m.vals[x]
  {
  }
}
