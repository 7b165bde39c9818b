/** The map-backed backing store: the persistent side the caches load from and save to. */
module BackingStores {
  import opened Wrappers

  class InMemoryBackingStore<K(==), V> {
    /** The stored mappings. */
    var store: map<K, V>

    constructor ()
      ensures store == map[]
    {
      store := map[];
    }

    /** `load`: the value saved under `key`, or null; the store is left as it is. */
    method Load(key: K) returns (r: Option<V>)
      ensures r.Some? <==> key in store
      ensures r.Some? ==> r.value == store[key]
    {
      r := Get(store, key);
    }

    /** `save`: `key` maps to `value`, overwriting any earlier value; other keys are unchanged. */
    method Save(key: K, value: V)
      modifies this
      ensures store == old(store)[key := value]
    {
      store := store[key := value];
    }

    /** `remove`: `key` is unmapped; other keys are unchanged. */
    method Remove(key: K)
      modifies this
      ensures store == old(store) - {key}
    {
      store := store - {key};
    }

    /**
     * `getAllEntries`: a copy of the contents. A Dafny map is a value, so later
     * changes to the copy cannot reach the store, nor later saves the copy.
     */
    method GetAllEntries() returns (copy: map<K, V>)
      ensures copy.Keys == store.Keys
      ensures forall k :: k in copy ==> copy[k] == store[k]
    {
      copy := store;
    }
  }

  /** A load right after a save of the same key returns the saved value. */
  lemma LoadAfterSave<K, V>(m: map<K, V>, k: K, v: V)
    ensures Get(m[k := v], k) == Some(v)
  {
  }

  /** A save or a remove of one key does not change what a load of another key returns. */
  lemma OtherKeysUnaffected<K, V>(m: map<K, V>, k: K, v: V, other: K)
    requires other != k
    ensures Get(m[k := v], other) == Get(m, other)
    ensures Get(m - {k}, other) == Get(m, other)
  {
  }

  /** A load right after a remove of the same key returns null. */
  lemma LoadAfterRemove<K, V>(m: map<K, V>, k: K)
    ensures Get(m - {k}, k) == None
  {
  }

  /** The round trips through the class's own methods. */
  method StoreScenario<K(==), V>(k: K, other: K, v: V, w: V)
    requires k != other
  {
    var s := new InMemoryBackingStore<K, V>();
    var r := s.Load(k);
    assert r == None;
    s.Save(k, v);
    s.Save(other, w);
    r := s.Load(k);
    assert r == Some(v);
    s.Save(k, w);
    r := s.Load(k);
    assert r == Some(w);
    var copy := s.GetAllEntries();
    s.Remove(k);
    r := s.Load(k);
    assert r == None;
    r := s.Load(other);
    assert r == Some(w);
    assert copy[k] == w;
  }
}
