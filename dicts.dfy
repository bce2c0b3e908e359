/**
 * Python's `dict` with text keys: a map that remembers the order in which
 * its keys were first inserted. Iteration follows that order; assigning to
 * a present key changes its value and keeps its place.
 */
module Dicts {
  datatype Dict<V> = Dict(keys: seq<string>, values: map<string, V>)

  /** The keys are listed once each, and exactly the keys of the map are listed. */
  ghost predicate Valid<V>(d: Dict<V>) {
    && (forall i, j :: 0 <= i < j < |d.keys| ==> d.keys[i] != d.keys[j])
    && (forall k :: k in d.values <==> k in d.keys)
  }

  /** `{}`. */
  function Empty<V>(): (r: Dict<V>)
    ensures Valid(r) && r.values == map[]
  {
    Dict([], map[])
  }

  /** `d[k] = v`: a new key goes last, a present key keeps its place. */
  function Put<V>(d: Dict<V>, k: string, v: V): (r: Dict<V>)
    requires Valid(d)
    ensures Valid(r)
    ensures r.values == d.values[k := v]
    ensures k in d.values ==> r.keys == d.keys
    ensures k !in d.values ==> r.keys == d.keys + [k]
  {
    if k in d.values then Dict(d.keys, d.values[k := v])
    else Dict(d.keys + [k], d.values[k := v])
  }
}
