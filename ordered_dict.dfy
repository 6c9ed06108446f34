/**
 * A Python dict as a value: the keys in insertion order plus the key-value
 * map. Assigning to an existing key changes its value and keeps its position.
 */
module OrderedDict {
  import opened Text

  datatype ODict<K, V> = ODict(keys: seq<K>, values: map<K, V>)

  ghost predicate Valid<K(!new), V>(d: ODict<K, V>) {
    Distinct(d.keys) && forall k :: k in d.keys <==> k in d.values
  }

  function Empty<K, V>(): (d: ODict<K, V>)
    ensures d.keys == [] && d.values == map[]
  {
    ODict([], map[])
  }

  /** `d[k] = v`. */
  function Put<K(!new), V>(d: ODict<K, V>, k: K, v: V): (r: ODict<K, V>)
    requires Valid(d)
    ensures Valid(r)
    ensures r.values == d.values[k := v]
    ensures k in d.values ==> r.keys == d.keys
    ensures k !in d.values ==> r.keys == d.keys + [k]
  {
    if k in d.values then ODict(d.keys, d.values[k := v])
    else ODict(d.keys + [k], d.values[k := v])
  }

  /** `list(d.values())`. */
  function Values<K(!new), V>(d: ODict<K, V>): (vs: seq<V>)
    requires Valid(d)
    ensures |vs| == |d.keys|
    ensures forall i :: 0 <= i < |d.keys| ==> vs[i] == d.values[d.keys[i]]
  {
    seq(|d.keys|, i requires 0 <= i < |d.keys| => d.values[d.keys[i]])
  }
}
