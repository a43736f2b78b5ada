/** A JavaScript object used as a dictionary keyed by strings: the values and
    the insertion order of the keys, which `Object.entries`/`Object.values`
    follow. */
module Records {
  import opened Strings

  datatype Record<V> = Record(keys: seq<string>, values: map<string, V>)
  {
    /** Each key is listed once, and exactly the keys that have values. */
    predicate Valid()
    {
      && NoDuplicates(keys)
      && (forall k :: k in values ==> k in keys)
      && (forall k :: k in keys ==> k in values)
    }

    /** `Object.values(this)`: the values in key order. */
    function Values(): (vs: seq<V>)
      requires Valid()
      ensures |vs| == |keys|
      ensures forall i :: 0 <= i < |keys| ==> vs[i] == values[keys[i]]
    {
      seq(|keys|, i requires 0 <= i < |keys| => values[keys[i]])
    }
  }

  /** `{}` */
  function Empty<V>(): (r: Record<V>)
    ensures r.Valid() && r.keys == []
  {
    Record([], map[])
  }

  /** `{ ...obj, [key]: val }` (createDependencyGraph.ts): a copy with `key`
      bound to `val`; a new key goes last, an existing key keeps its place. */
  function ImmutAddProp<V>(obj: Record<V>, key: string, val: V): (r: Record<V>)
    requires obj.Valid()
    ensures r.Valid()
    ensures key in r.values && r.values[key] == val
    ensures forall k :: k != key ==> (k in r.values <==> k in obj.values)
    ensures forall k :: k != key && k in obj.values ==> r.values[k] == obj.values[k]
    ensures key in obj.values ==> r.keys == obj.keys
    ensures key !in obj.values ==> r.keys == obj.keys + [key]
  {
    if key in obj.values then Record(obj.keys, obj.values[key := val])
    else Record(obj.keys + [key], obj.values[key := val])
  }
}
