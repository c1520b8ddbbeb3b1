/** Python's `dict[str, V]` with the part of its behaviour the listing
    observes: lookup, assignment `d[k] = v`, and `values()` in insertion
    order, where assigning to an existing key keeps its position. */
module Dicts {
  import opened Wrappers

  datatype Dict<V> = Dict(keys: seq<string>, entries: map<string, V>) {

    /** The keys sequence lists each key of the map exactly once. */
    ghost predicate Valid() {
      && (forall k :: k in entries <==> k in keys)
      && (forall i, j :: 0 <= i < j < |keys| ==> keys[i] != keys[j])
    }

    /** `d.get(k, None)`. */
    function Get(k: string): Option<V> {
      if k in entries then Some(entries[k]) else None
    }

    /** `d[k] = v`: a new key goes last, an existing one keeps its place. */
    function Put(k: string, v: V): (d: Dict<V>)
      requires Valid()
      ensures d.Valid()
      ensures d.Get(k) == Some(v)
      ensures forall k' :: k' != k ==> d.Get(k') == Get(k')
      ensures k in entries ==> d.keys == keys
      ensures k !in entries ==> d.keys == keys + [k]
    {
      Dict(if k in entries then keys else keys + [k], entries[k := v])
    }

    /** `list(d.values())`: the values in key order. */
    function Values(): (vs: seq<V>)
      ensures Valid() ==> |vs| == |keys|
      ensures Valid() ==> forall i :: 0 <= i < |keys| ==> vs[i] == entries[keys[i]]
    {
      ValuesOf(keys)
    }

    /** The values filed under `ks`, in the order of `ks`. */
    function ValuesOf(ks: seq<string>): (vs: seq<V>)
      ensures (forall k :: k in ks ==> k in entries) ==>
                |vs| == |ks| && forall i :: 0 <= i < |ks| ==> vs[i] == entries[ks[i]]
    {
      if ks == [] then []
      else (if ks[0] in entries then [entries[ks[0]]] else []) + ValuesOf(ks[1..])
    }
  }

  /** `{}`. */
  function EmptyDict<V>(): (d: Dict<V>)
    ensures d.Valid() && d.keys == []
    ensures forall k :: d.Get(k) == None
  {
    Dict([], map[])
  }
}
