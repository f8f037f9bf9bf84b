/**
 * Python's `dict` as the monitor uses it: a finite map that also remembers the order in
 * which keys were first inserted, because iterating over `d.items()` follows that order.
 */
module OrderedDict {

  datatype Dict<K(==), V> = Dict(keys: seq<K>, entries: map<K, V>)

  /** No key is listed twice. */
  ghost predicate Distinct<K>(keys: seq<K>) {
    forall i, j :: 0 <= i < j < |keys| ==> keys[i] != keys[j]
  }

  /** Each key is listed once, and the listed keys are exactly the keys of the map. */
  ghost predicate Valid<K(!new), V>(d: Dict<K, V>) {
    Distinct(d.keys)
    && (forall k :: k in d.entries <==> k in d.keys)
  }

  /** `{}` */
  function Empty<K(==,!new), V>(): (r: Dict<K, V>)
    ensures Valid(r) && r.entries == map[]
  {
    Dict([], map[])
  }

  /** `d[k] = v`: a new key goes to the end of the order, an existing key keeps its place. */
  function Put<K(==,!new), V>(d: Dict<K, V>, k: K, v: V): (r: Dict<K, V>)
    ensures Valid(d) ==> Valid(r)
    ensures r.entries == d.entries[k := v]
    ensures k in d.entries ==> r.keys == d.keys
    ensures k !in d.entries ==> r.keys == d.keys + [k]
  {
    if k in d.entries then Dict(d.keys, d.entries[k := v]) else Dict(d.keys + [k], d.entries[k := v])
  }
}
