/**
 * The backing-store adapter of the decomposed cache: it owns a map-backed store,
 * loads by loading mode and saves by write policy. Its single worker thread runs
 * both the asynchronous loads and the deferred (WRITE_BACK) saves, one task at a
 * time in submission order.
 */
module Loaders {
  import opened Wrappers
  import opened Policies
  import opened BackingStores

  /** A save submitted to the worker and not yet run. */
  datatype SaveTask<K, V> = SaveTask(key: K, value: V)

  /** The exception `save` throws for a write policy it does not implement. */
  datatype LoaderError = IllegalArgumentException(message: string)

  /** The store after the worker has run the queued saves `q`, oldest first. */
  function ApplySaves<K, V>(m: map<K, V>, q: seq<SaveTask<K, V>>): (r: map<K, V>)
    ensures r.Keys == m.Keys + set i | 0 <= i < |q| :: q[i].key
    decreases |q|
  {
    if q == [] then m else ApplySaves(m[q[0].key := q[0].value], q[1..])
  }

  /** The value of the most recently queued save of `k` in `q`, if there is one. */
  function LastQueued<K(==), V>(q: seq<SaveTask<K, V>>, k: K): (r: Option<V>)
    ensures r.Some? <==> exists i :: 0 <= i < |q| && q[i].key == k
  {
    if q == [] then None
    else if q[|q| - 1].key == k then Some(q[|q| - 1].value)
    else
      var r := LastQueued(q[..|q| - 1], k);
      assert forall i :: 0 <= i < |q| - 1 ==> q[..|q| - 1][i] == q[i];
      r
  }

  /** What `load(key)` returns, given the store and the queue at the moment of the call. */
  function LoadResult<K, V>(mode: LoadingMode, store: map<K, V>, pending: seq<SaveTask<K, V>>,
                            key: K, threw: bool): (r: Option<V>)
    ensures mode == SYNC ==> r == Get(store, key)
    ensures mode == ASYNC && threw ==> r == None
    ensures mode == ASYNC && !threw ==>
              r == if LastQueued(pending, key).Some? then LastQueued(pending, key) else Get(store, key)
  {
    LastQueuedSaveWins(store, pending, key);
    match mode
    case SYNC => Get(store, key)
    case ASYNC => if threw then None else Get(ApplySaves(store, pending), key)
  }

  /** Running one more queued save after `q` updates the result of running `q`. */
  lemma {:induction false} ApplySavesSnoc<K, V>(m: map<K, V>, q: seq<SaveTask<K, V>>, t: SaveTask<K, V>)
    ensures ApplySaves(m, q + [t]) == ApplySaves(m, q)[t.key := t.value]
    decreases |q|
  {
    if q != [] {
      assert (q + [t])[0] == q[0] && (q + [t])[1..] == q[1..] + [t];
      ApplySavesSnoc(m[q[0].key := q[0].value], q[1..], t);
    }
  }

  /**
   * Saves run one at a time in submission order, so for each key the last
   * queued save wins, and a key no queued save touches keeps its stored value.
   */
  lemma {:induction false} LastQueuedSaveWins<K, V>(m: map<K, V>, q: seq<SaveTask<K, V>>, k: K)
    ensures Get(ApplySaves(m, q), k) == if LastQueued(q, k).Some? then LastQueued(q, k) else Get(m, k)
  {
    if q != [] {
      var front, t := q[..|q| - 1], q[|q| - 1];
      assert q == front + [t];
      ApplySavesSnoc(m, front, t);
      LastQueuedSaveWins(m, front, k);
    }
  }

  /** An asynchronous load that does not fail sees every save queued before it. */
  lemma AsyncLoadSeesQueuedSave<K, V>(store: map<K, V>, pending: seq<SaveTask<K, V>>, k: K, v: V)
    ensures LoadResult(ASYNC, store, pending + [SaveTask(k, v)], k, false) == Some(v)
  {
    LastQueuedSaveWins(store, pending + [SaveTask(k, v)], k);
  }

  class BackStoreDataLoader<K(==), V> {
    const loadingMode: LoadingMode
    const writePolicy: WritePolicy
    /** The store this loader creates for itself and that its loader function reads. */
    const backingStore: InMemoryBackingStore<K, V>
    /** Saves submitted to the worker under WRITE_BACK and not yet run, oldest first. */
    var pending: seq<SaveTask<K, V>>

    constructor (loadingMode: LoadingMode, writePolicy: WritePolicy)
      ensures this.loadingMode == loadingMode && this.writePolicy == writePolicy
      ensures fresh(backingStore) && backingStore.store == map[] && pending == []
    {
      this.loadingMode := loadingMode;
      this.writePolicy := writePolicy;
      this.backingStore := new InMemoryBackingStore<K, V>();
      pending := [];
    }

    /**
     * `load(key)`: dispatch on the loading mode. `threw` says whether the loader
     * function failed when the worker ran it (only ASYNC runs it).
     */
    method Load(key: K, threw: bool) returns (r: Option<V>)
      modifies this, backingStore
      ensures r == LoadResult(loadingMode, old(backingStore.store), old(pending), key, threw)
      ensures loadingMode == SYNC ==> backingStore.store == old(backingStore.store) && pending == old(pending)
      ensures loadingMode == ASYNC ==>
                backingStore.store == ApplySaves(old(backingStore.store), old(pending)) && pending == []
    {
      match loadingMode
      case ASYNC =>
        r := LoadAsync(key, threw);
      case SYNC =>
        r := LoadSync(key);
    }

    /**
     * `loadSync(key)`: the store's value for `key` in SYNC mode, null in any other
     * mode; nothing changes.
     */
    method LoadSync(key: K) returns (r: Option<V>)
      ensures loadingMode == SYNC ==> r == Get(backingStore.store, key)
      ensures loadingMode != SYNC ==> r == None
    {
      if loadingMode == SYNC {
        r := backingStore.Load(key);
      } else {
        r := None;
      }
    }

    /**
     * `loadAsync(key)` in ASYNC mode submits the loader function to the worker and
     * blocks on the result: the worker first runs every save queued before it, then
     * the load, which yields the store's value, or null if it failed. In any other
     * mode it returns null and changes nothing.
     */
    method LoadAsync(key: K, threw: bool) returns (r: Option<V>)
      modifies this, backingStore
      ensures loadingMode == ASYNC ==>
                && backingStore.store == ApplySaves(old(backingStore.store), old(pending))
                && pending == []
                && r == (if threw then None else Get(backingStore.store, key))
      ensures loadingMode != ASYNC ==>
                r == None && backingStore.store == old(backingStore.store) && pending == old(pending)
    {
      if loadingMode == ASYNC {
        RunQueuedSaves();
        if threw {
          r := None;
        } else {
          r := backingStore.Load(key);
        }
      } else {
        r := None;
      }
    }

    /** The worker runs the oldest queued save. */
    method RunNextSave()
      requires pending != []
      modifies this, backingStore
      ensures backingStore.store == old(backingStore.store)[old(pending[0].key) := old(pending[0].value)]
      ensures pending == old(pending[1..])
    {
      var task := pending[0];
      pending := pending[1..];
      backingStore.Save(task.key, task.value);
    }

    /** The worker runs every queued save, one at a time, oldest first. */
    method RunQueuedSaves()
      modifies this, backingStore
      ensures backingStore.store == ApplySaves(old(backingStore.store), old(pending))
      ensures pending == []
    {
      while pending != []
        invariant ApplySaves(backingStore.store, pending) == ApplySaves(old(backingStore.store), old(pending))
        decreases |pending|
      {
        RunNextSave();
      }
    }

    /**
     * `save(key, value)`: WRITE_THROUGH writes the store before returning, WRITE_BACK
     * queues the save on the worker and returns at once, any other policy throws.
     */
    method Save(key: K, value: V) returns (outcome: Outcome<LoaderError>)
      modifies this, backingStore
      ensures writePolicy == WRITE_THROUGH ==>
                outcome == Pass && backingStore.store == old(backingStore.store)[key := value]
                && pending == old(pending)
      ensures writePolicy == WRITE_BACK ==>
                outcome == Pass && backingStore.store == old(backingStore.store)
                && pending == old(pending) + [SaveTask(key, value)]
      ensures writePolicy !in {WRITE_THROUGH, WRITE_BACK} ==>
                outcome == Fail(IllegalArgumentException("Invalid write policy"))
                && backingStore.store == old(backingStore.store) && pending == old(pending)
    {
      if writePolicy == WRITE_THROUGH {
        backingStore.Save(key, value);
        outcome := Pass;
      } else if writePolicy == WRITE_BACK {
        pending := pending + [SaveTask(key, value)];
        outcome := Pass;
      } else {
        outcome := Fail(IllegalArgumentException("Invalid write policy"));
      }
    }
  }

  /** Write-through durability and write-back deferral, through the class's own methods. */
  method LoaderScenario<K(==), V>(k: K, v: V, w: V)
  {
    var through := new BackStoreDataLoader<K, V>(SYNC, WRITE_THROUGH);
    var outcome := through.Save(k, v);
    var r := through.Load(k, false);
    assert outcome == Pass && r == Some(v);

    var back := new BackStoreDataLoader<K, V>(SYNC, WRITE_BACK);
    outcome := back.Save(k, v);
    r := back.Load(k, false);
    assert outcome == Pass && r == None;
    back.RunQueuedSaves();
    r := back.Load(k, false);
    assert r == Some(v);

    var async := new BackStoreDataLoader<K, V>(ASYNC, WRITE_BACK);
    outcome := async.Save(k, v);
    outcome := async.Save(k, w);
    AsyncLoadSeesQueuedSave(map[], [SaveTask(k, v)], k, w);
    r := async.Load(k, false);
    assert r == Some(w);

    var around := new BackStoreDataLoader<K, V>(SYNC, WRITE_AROUND);
    outcome := around.Save(k, v);
    r := around.Load(k, false);
    assert outcome.Fail? && r == None;
  }
}
