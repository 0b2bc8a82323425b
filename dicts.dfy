/** Python's `dict`, which remembers the order in which keys were first inserted. */
module Dicts {
  import opened Seqs

  /** `keys` lists the keys in insertion order; `values` is the mapping itself. */
  datatype Dict<K(==,!new), V> = Dict(keys: seq<K>, values: map<K, V>) {

    /** Every key is listed once, and exactly the mapped keys are listed. */
    ghost predicate Valid() {
      Distinct(keys) && forall k :: k in values <==> k in keys
    }

    /** `d[k] = v`: a new key goes to the end of the order; an existing key keeps its place. */
    function Put(k: K, v: V): (d: Dict<K, V>)
      requires Valid()
      ensures d.Valid()
      ensures d.values == values[k := v]
      ensures d.keys == if k in values then keys else keys + [k]
    {
      var ks := if k in values then keys else keys + [k];
      assert k !in values ==> forall i :: 0 <= i < |keys| ==> keys[i] != k;
      Dict(ks, values[k := v])
    }
  }

  /** `{}`. */
  function EmptyDict<K(==,!new), V>(): (d: Dict<K, V>)
    ensures d.Valid() && d.keys == [] && d.values == map[]
  {
    Dict([], map[])
  }
}
