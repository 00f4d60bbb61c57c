/** A map that remembers the order in which its keys were first set, as the
    orderedmap package behaves: setting a key again keeps its position. */
module OrderedMaps {

  predicate Distinct<K(==)>(keys: seq<K>) {
    forall i, j :: 0 <= i < j < |keys| ==> keys[i] != keys[j]
  }

  /** keys without one key, in the same order. */
  function Without<K(==, !new)>(keys: seq<K>, key: K): (r: seq<K>)
    ensures forall k :: k in r <==> k in keys && k != key
    ensures Distinct(keys) ==> Distinct(r)
  {
    if keys == [] then []
    else
      var rest := Without(keys[1..], key);
      assert forall k :: k in keys <==> k == keys[0] || k in keys[1..];
      assert Distinct(keys) ==> Distinct(keys[1..]) && keys[0] !in keys[1..];
      if keys[0] == key then rest else [keys[0]] + rest
  }

  datatype OrderedMap<K(==, !new), V> = OrderedMap(keys: seq<K>, values: map<K, V>) {

    ghost predicate Valid() {
      && Distinct(keys)
      && (forall k :: k in keys <==> k in values)
    }

    function Set(key: K, value: V): (r: OrderedMap<K, V>)
      ensures Valid() ==> r.Valid()
    {
      OrderedMap(if key in values then keys else keys + [key], values[key := value])
    }

    function Delete(key: K): (r: OrderedMap<K, V>)
      ensures Valid() ==> r.Valid()
      ensures Valid() ==> r.values == values - {key}
    {
      OrderedMap(Without(keys, key), values - {key})
    }
  }

  function Empty<K(==, !new), V>(): OrderedMap<K, V> {
    OrderedMap([], map[])
  }

  lemma EmptyIffNoKeys<K(!new), V>(m: OrderedMap<K, V>)
    requires m.Valid()
    ensures m.keys == [] <==> |m.values| == 0
  {
    if m.keys != [] {
      assert m.keys[0] in m.values.Keys;
    } else {
      assert m.values.Keys == {};
    }
  }

  lemma {:induction false} WithoutAbsent<K(!new)>(keys: seq<K>, key: K)
    requires key !in keys
    ensures Without(keys, key) == keys
  {
    if keys != [] {
      WithoutAbsent(keys[1..], key);
    }
  }
}
