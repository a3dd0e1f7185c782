/** Python's `dict` as the aggregations use it: a map that remembers the order
    in which its keys were first inserted. */
module Dicts {
  import opened Seqs

  /** `keys` lists the keys in insertion order; `entries` holds the values. */
  datatype Dict<K(==), V> = Dict(keys: seq<K>, entries: map<K, V>)
  {
    /** The key list and the map describe the same keys, each listed once. */
    ghost predicate Valid()
    {
      && Distinct(keys)
      && (forall i | 0 <= i < |keys| :: keys[i] in entries)
      && (forall k | k in entries :: k in keys)
    }

    /** `d.update({k: v})`: a new key goes to the end of the order, an existing
        key keeps its place and gets the new value. */
    function Update(k: K, v: V): (d: Dict<K, V>)
      ensures d.entries == entries[k := v]
      ensures k in entries ==> d.keys == keys
      ensures k !in entries ==> d.keys == keys + [k]
    {
      if k in entries then Dict(keys, entries[k := v]) else Dict(keys + [k], entries[k := v])
    }

    /** An update keeps the key list and the map in step, each key listed once. */
    lemma UpdateValid(k: K, v: V)
      requires Valid()
      ensures Update(k, v).Valid()
    {
    }
  }

  /** The empty dict `{}`. */
  function EmptyDict<K(==), V>(): (d: Dict<K, V>)
    ensures d.Valid() && d.keys == [] && d.entries == map[]
  {
    Dict([], map[])
  }
}
