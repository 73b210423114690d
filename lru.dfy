/**
 * LRU: a least-recently-used cache of key/value pairs. The recency list of
 * keys, most recently used first, is a sequence the methods reassign; the
 * map holds each key's value.
 */
module Lru {
  import opened Recency

  datatype Option<T> = None | Some(value: T)

  /**
   * What removeLast does to the list and the map, as written: with no last
   * element it still reads the key of the missing element.
   */
  datatype Removal<K, V> = Removed(keys: seq<K>, values: map<K, V>) | NilDereference

  /** removeLast as written: the map deletion sits outside the guard on the last element. */
  function RemoveLastAsWritten<K(==), V>(keys: seq<K>, values: map<K, V>): (r: Removal<K, V>)
    ensures keys != [] ==> r == Removed(keys[..|keys| - 1], values - {keys[|keys| - 1]})
  {
    if keys == [] then NilDereference
    else Removed(keys[..|keys| - 1], values - {keys[|keys| - 1]})
  }

  /**
   * A cache made with a size of zero or less is empty and already "full", so
   * the first Add of any key goes on to removeLast with an empty list, which
   * then dereferences the missing last element.
   */
  lemma ZeroSizeAddDereferencesNil<K, V>(maxSize: int, keys: seq<K>, values: map<K, V>)
    requires maxSize <= 0 && keys == [] && values == map[]
    ensures |keys| >= maxSize
    ensures RemoveLastAsWritten(keys, values) == NilDereference
  {
  }

  class LRU<K(==,!new), V> {
    const maxSize: int
    /** The cached keys, most recently used first. */
    var keys: seq<K>
    var values: map<K, V>

    /** No key twice, the list and the map hold the same keys, and no more of them than maxSize. */
    ghost predicate Valid()
      reads this
    {
      && Distinct(keys)
      && (forall k :: k in keys <==> k in values)
      && (keys == [] || |keys| <= maxSize)
    }

    /** An empty cache that will hold at most `size` keys. */
    constructor (size: int)
      ensures Valid() && maxSize == size && keys == [] && values == map[]
    {
      maxSize := size;
      keys := [];
      values := map[];
    }

    /** The number of cached keys, counted in the map; it is the length of the list. */
    function Len(): (n: nat)
      reads this
      requires Valid()
      ensures n == |keys|
      ensures keys == [] || n <= maxSize
    {
      DistinctCard(keys);
      assert values.Keys == set k | k in keys;
      |values|
    }

    /** The value of `key` and whether it is cached, leaving the recency order alone. */
    function Peek(key: K): (r: Option<V>)
      reads this
      ensures r.Some? <==> key in values
      ensures r.Some? ==> r.value == values[key]
    {
      if key in values then Some(values[key]) else None
    }

    /** The value of `key` and whether it is cached; a cached key becomes the most recently used. */
    method Get(key: K) returns (r: Option<V>)
      requires Valid()
      modifies this`keys
      ensures Valid()
      ensures r == old(Peek(key))
      ensures keys == if key in old(values) then Touch(old(keys), key) else old(keys)
    {
      if key in values {
        TouchDistinct(keys, key);
        keys := Touch(keys, key);
        return Some(values[key]);
      } else {
        return None;
      }
    }

    /**
     * Stores `value` under `key` and makes `key` the most recently used. A
     * new key in a full cache first evicts the least recently used one.
     */
    method Add(key: K, value: V)
      requires Valid() && 0 < maxSize
      modifies this
      ensures Valid()
      ensures keys == Use(old(keys), key, maxSize)
      ensures Peek(key) == Some(value)
      ensures forall k :: k in values && k != key ==> k in old(values) && values[k] == old(values)[k]
      ensures key in old(values) ==> Len() == old(Len())
      ensures key !in old(values) ==> Len() == Min(old(Len()) + 1, maxSize)
      ensures key !in old(values) && old(Len()) == maxSize ==> old(keys)[maxSize - 1] !in values
    {
      if key in values {
        TouchDistinct(keys, key);
        keys := Touch(keys, key);
      } else {
        UseNew(keys, key, maxSize);
        if |keys| >= maxSize {
          RemoveLast();
        }
        DistinctCons(key, keys);
        keys := [key] + keys;
      }
      values := values[key := value];
    }

    /**
     * Forgets the least recently used key, in the list and in the map; an
     * empty cache is left as it is.
     */
    method RemoveLast()
      requires Valid()
      modifies this
      ensures Valid()
      ensures old(keys) == [] ==> keys == [] && values == old(values)
      ensures old(keys) != [] ==> keys == old(keys)[..|old(keys)| - 1]
      ensures old(keys) != [] ==> values == old(values) - {old(keys)[|old(keys)| - 1]}
    {
      if keys != [] {
        var last := keys[|keys| - 1];
        forall i | 0 <= i < |keys| - 1
          ensures keys[i] != last
        {
          DistinctNe(keys, i, |keys| - 1);
        }
        DistinctPrefix(keys, |keys| - 1);
        keys := keys[..|keys| - 1];
        values := values - {last};
      }
    }
  }
}
