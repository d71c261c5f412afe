/**
 * `Dictionary<K, V>` as the decoders use it: entries are only ever added or
 * overwritten, never removed, so enumeration follows insertion order.
 */
module OrderedMaps {
  import opened Results
  import opened Seqs

  datatype OrderedMap<K(==), V> = OrderedMap(keys: seq<K>, items: map<K, V>)
  {
    /** The keys in enumeration order, each once, and exactly the keys of the map. */
    ghost predicate Valid()
    {
      && Distinct(keys)
      && (forall k | k in items :: k in keys)
      && (forall i | 0 <= i < |keys| :: keys[i] in items)
    }

    /** Dictionary.Add: an ArgumentException when the key is already present. */
    function Add(k: K, v: V): (r: Result<OrderedMap<K, V>>)
      ensures r.Ok? <==> k !in items
      ensures r.Ok? ==> r.value.keys == keys + [k] && r.value.items == items[k := v]
    {
      if k in items then Err(Argument) else Ok(OrderedMap(keys + [k], items[k := v]))
    }

    /** The indexer's setter: a present key keeps its place, a new one goes last. */
    function Put(k: K, v: V): (r: OrderedMap<K, V>)
      ensures r.items == items[k := v]
      ensures Valid() && k in items ==> r.keys == keys
      ensures k !in items ==> r.keys == keys + [k]
    {
      OrderedMap(if k in items then keys else keys + [k], items[k := v])
    }

    /** Adding a new key keeps the keys distinct and in step with the map. */
    lemma AddValid(k: K, v: V)
      requires Valid() && Add(k, v).Ok?
      ensures Add(k, v).value.Valid()
    {
    }

    /** So does setting a key. */
    lemma PutValid(k: K, v: V)
      requires Valid()
      ensures Put(k, v).Valid()
    {
    }

    /** The values in enumeration order. */
    function Values(): (r: seq<V>)
      requires Valid()
      ensures |r| == |keys|
      ensures forall i | 0 <= i < |keys| :: r[i] == items[keys[i]]
    {
      seq(|keys|, i requires 0 <= i < |keys| => items[keys[i]])
    }
  }

  function Empty<K(==), V>(): (r: OrderedMap<K, V>)
    ensures r.Valid() && r.keys == [] && r.items == map[]
  {
    OrderedMap([], map[])
  }
}
