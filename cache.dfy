/**
 * The in-memory key/value store `CacheObject` of io_tools/cache.py: a
 * dictionary field `_cache` that `set`, `remove` and `clear` update in
 * place and `get` reads.
 */
module Cache {
  import opened Wrappers

  /** The exception `del` raises on a missing key. */
  datatype CacheError = KeyError

  class CacheObject<K(==), V> {
    /** The `_cache` dictionary. */
    var entries: map<K, V>

    /** A store created without a local database file starts empty. */
    constructor ()
      ensures entries == map[]
    {
      entries := map[];
    }

    /**
     * Stores `value` under `key`, replacing any earlier value; `overwritten`
     * is the condition under which the source warns.  No other key changes.
     */
    method Set(key: K, value: V) returns (overwritten: bool)
      modifies this
      ensures overwritten <==> key in old(entries)
      ensures entries == old(entries)[key := value]
      ensures forall k :: k != key ==> (k in entries <==> k in old(entries))
      ensures forall k :: k != key && k in entries ==> entries[k] == old(entries)[k]
    {
      overwritten := key in entries;
      entries := entries[key := value];
    }

    /** The value stored under `key`, or None when there is none; the store is not changed. */
    method Get(key: K) returns (r: Option<V>)
      ensures r.Some? <==> key in entries
      ensures r.Some? ==> r.value == entries[key]
    {
      if key !in entries {
        return None;
      }
      return Some(entries[key]);
    }

    /**
     * Deletes the entry for `key`.  On a missing key the source warns and
     * then `del` raises KeyError, leaving the store as it was.
     */
    method Remove(key: K) returns (r: Outcome<CacheError>)
      modifies this
      ensures r == Pass <==> key in old(entries)
      ensures r.Fail? ==> r.error == KeyError && entries == old(entries)
      ensures r.Pass? ==> entries == old(entries) - {key}
      ensures key !in entries
      ensures forall k :: k != key ==> (k in entries <==> k in old(entries))
      ensures forall k :: k != key && k in entries ==> entries[k] == old(entries)[k]
    {
      if key !in entries {
        return Fail(KeyError);
      }
      entries := entries - {key};
      return Pass;
    }

    /** Empties the store. */
    method Clear()
      modifies this
      ensures entries == map[]
    {
      entries := map[];
    }
  }

  /**
   * The usage in the class's doc comment: after `set(key, value)`, `get(key)`
   * returns `value`; after `remove(key)`, `get(key)` returns None.  Every
   * other key keeps its value throughout.
   */
  method SetGetRemoveGet<K(==), V>(cache: CacheObject<K, V>, key: K, value: V)
    returns (afterSet: Option<V>, afterRemove: Option<V>)
    modifies cache
    ensures afterSet == Some(value)
    ensures afterRemove == None
    ensures cache.entries == old(cache.entries) - {key}
  {
    var _ := cache.Set(key, value);
    afterSet := cache.Get(key);
    var outcome := cache.Remove(key);
    assert outcome == Pass;
    afterRemove := cache.Get(key);
  }
}
