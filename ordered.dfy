/**
 * PHP's ordered associative array with string keys: a map together with the
 * order in which its keys were first inserted.  Assigning to an existing key
 * changes its value and keeps its position; a new key goes to the end.
 */
module OrderedMaps {

  datatype OrderedMap<V> = OrderedMap(keys: seq<string>, values: map<string, V>)
  {
    /** The keys listed once each, and exactly the keys of the map. */
    predicate Valid() {
      && (forall i, j :: 0 <= i < j < |keys| ==> keys[i] != keys[j])
      && (forall k :: k in values ==> k in keys)
      && (forall i :: 0 <= i < |keys| ==> keys[i] in values)
    }

    /** `$array[$key] = $value`. */
    function Put(key: string, value: V): (r: OrderedMap<V>)
      requires Valid()
      ensures r.Valid()
      ensures r.values == values[key := value]
      ensures key in values ==> r.keys == keys
      ensures key !in values ==> r.keys == keys + [key]
    {
      if key in values then OrderedMap(keys, values[key := value])
      else OrderedMap(keys + [key], values[key := value])
    }
  }

  /** `[]`. */
  function Empty<V>(): (r: OrderedMap<V>)
    ensures r.Valid() && r.keys == [] && r.values == map[]
  {
    OrderedMap([], map[])
  }
}
