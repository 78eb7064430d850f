/** The store's tables are JavaScript `Map`s keyed by number: lookups by key,
    and `Array.from(map.values())` in insertion order, where `set` on a key
    already present replaces the value in place and a new key goes last. */
module JsMap {
  import opened Wrappers

  datatype OrderedMap<V> = OrderedMap(order: seq<int>, entries: map<int, V>) {

    /** The keys in insertion order are exactly the keys of the map, each
        once (as many keys in order as in the map; see KeysDistinct). */
    ghost predicate Valid() {
      && |order| == |entries|
      && (forall k :: k in entries <==> k in order)
      && (forall i :: 0 <= i < |order| ==> order[i] in entries)
    }

    function Get(k: int): (r: Option<V>)
      ensures r.Some? <==> k in entries
      ensures r.Some? ==> r.value == entries[k]
    {
      if k in entries then Some(entries[k]) else None
    }

    /** `Array.from(map.values())`. */
    function Values(): (vs: seq<V>)
      requires Valid()
      ensures |vs| == |order|
      ensures forall i :: 0 <= i < |order| ==> vs[i] == entries[order[i]]
    {
      seq(|order|, i requires 0 <= i < |order| => entries[order[i]])
    }

    /** `map.set(k, v)`. */
    function Set(k: int, v: V): (m: OrderedMap<V>)
      requires Valid()
      ensures m.Valid()
      ensures m.entries == entries[k := v]
      ensures k in entries ==> m.order == order
      ensures k !in entries ==> m.order == order + [k]
    {
      if k in entries then OrderedMap(order, entries[k := v])
      else OrderedMap(order + [k], entries[k := v])
    }
  }

  /** The keys occurring in a sequence. */
  ghost function KeySet(keys: seq<int>): (r: set<int>)
    ensures forall k :: k in r <==> k in keys
  {
    if keys == [] then {} else KeySet(keys[..|keys| - 1]) + {keys[|keys| - 1]}
  }

  /** A sequence with a repeated key has fewer distinct keys than elements. */
  lemma {:induction false} RepeatShrinksKeySet(keys: seq<int>, i: nat, j: nat)
    requires i < j < |keys| && keys[i] == keys[j]
    ensures |KeySet(keys)| < |keys|
  {
    var init := keys[..|keys| - 1];
    if j == |keys| - 1 {
      assert init[i] == keys[j];
      KeySetBound(init);
    } else {
      RepeatShrinksKeySet(init, i, j);
    }
  }

  lemma {:induction false} KeySetBound(keys: seq<int>)
    ensures |KeySet(keys)| <= |keys|
  {
    if keys != [] {
      KeySetBound(keys[..|keys| - 1]);
    }
  }

  /** So a valid map's insertion order repeats no key. */
  lemma KeysDistinct<V>(m: OrderedMap<V>, i: nat, j: nat)
    requires m.Valid() && i < j < |m.order|
    ensures m.order[i] != m.order[j]
  {
    var ks := KeySet(m.order);
    assert ks == m.entries.Keys by {
      forall k ensures k in ks <==> k in m.entries.Keys {
        assert k in ks <==> k in m.order;
      }
    }
    assert |ks| == |m.order|;
    if m.order[i] == m.order[j] {
      RepeatShrinksKeySet(m.order, i, j);
      assert false;
    }
  }

  function Empty<V>(): (m: OrderedMap<V>)
    ensures m.Valid() && m.Values() == [] && m.entries == map[]
  {
    OrderedMap([], map[])
  }

  /** Position of a present key in the insertion order. */
  function IndexOf(order: seq<int>, k: int): (i: nat)
    requires k in order
    ensures i < |order| && order[i] == k
  {
    if order[|order| - 1] == k then |order| - 1 else IndexOf(order[..|order| - 1], k)
  }

  /** A property holds of every value listed in insertion order exactly when
      it holds of every entry. */
  lemma AllValuesIffAllEntries<V>(m: OrderedMap<V>, p: V -> bool)
    requires m.Valid()
    ensures (forall i :: 0 <= i < |m.order| ==> p(m.Values()[i])) <==> (forall k :: k in m.entries ==> p(m.entries[k]))
  {
    if forall i :: 0 <= i < |m.order| ==> p(m.Values()[i]) {
      forall k | k in m.entries ensures p(m.entries[k]) {
        var i := IndexOf(m.order, k);
        assert m.Values()[i] == m.entries[k];
      }
    }
    if forall k :: k in m.entries ==> p(m.entries[k]) {
      forall i | 0 <= i < |m.order| ensures p(m.Values()[i]) {
        assert m.order[i] in m.entries;
      }
    }
  }

  /** A new key is appended: its value comes after all the others. */
  lemma SetNewKeyAppends<V>(m: OrderedMap<V>, k: int, v: V)
    requires m.Valid() && k !in m.entries
    ensures m.Set(k, v).Values() == m.Values() + [v]
  {
    var r := m.Set(k, v);
    assert forall i :: 0 <= i < |m.order| ==> m.order[i] != k;
  }

  /** An existing key keeps its slot: only that value changes. */
  lemma SetExistingKeyInPlace<V>(m: OrderedMap<V>, k: int, v: V)
    requires m.Valid() && k in m.entries
    ensures m.Set(k, v).Values() == m.Values()[IndexOf(m.order, k) := v]
  {
    var i := IndexOf(m.order, k);
    forall j | 0 <= j < |m.order| && j != i ensures m.order[j] != k {
      if j < i { KeysDistinct(m, j, i); } else { KeysDistinct(m, i, j); }
    }
  }
}
