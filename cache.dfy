/** `Cache` (main.py:125-142): a storage paired with an LRU key-access policy. */
module Caches {
  import opened Wrappers
  import opened Seqs
  import opened Recency
  import opened Storage
  import opened LruTracking
  import opened LruPolicy
  import Tiers

  class Cache<K(==), V> {
    const storage: HashMapStorage<K, V>
    const policy: LruPolicy<K>

    /** The objects whose fields the cache's operations change. */
    function Repr(): set<object> {
      {storage, policy, policy.ll}
    }

    /** The cache as a value: the storage's entries and capacity, the policy's order
        and its self-loop mark. */
    ghost function View(): Tiers.Tier<K, V>
      reads storage, policy
    {
      Tiers.Tier(storage.db, policy.order, storage.capacity, policy.looped)
    }

    /** The storage and the policy are each consistent and hold the same keys. */
    ghost predicate Valid()
      reads Repr()
    {
      storage.Valid() && policy.Valid() && storage.db.Keys == (set k | k in policy.order)
    }

    lemma ValidView()
      requires Valid()
      ensures Tiers.TierValid(View())
    {
      TrackedKeys(policy.ll.State(), policy.hashmap, policy.order, policy.handles);
    }

    /** Lines 126-128: the storage and the policy are given by the caller, and must
        agree on the keys they hold. */
    constructor (storage: HashMapStorage<K, V>, policy: LruPolicy<K>)
      requires storage.Valid() && policy.Valid()
      requires storage.db.Keys == (set k | k in policy.order)
      ensures this.storage == storage && this.policy == policy
      ensures Valid()
    {
      this.storage := storage;
      this.policy := policy;
    }

    /** `Cache.put` (lines 130-138), recursive as in the source. The self-loop
        defect of the policy is excluded: when the storage has room, `key` must not
        be the least recently used key of a list that still carries the loop. */
    method Put(key: K, value: V) returns (r: Outcome)
      requires Valid()
      requires storage.Full() || !Tiers.Defect(View(), key)
      modifies Repr()
      ensures Valid()
      ensures (r, View()) == Tiers.Put(old(View()), key, value)
      decreases |storage.db|, 1
    {
      ValidView();
      ghost var t := View();
      r := storage.Put(key, value);
      if r.Done? {
        Tiers.StoreAccessKeepsValid(t, key, value);
        policy.KeyAccessed(key);
      } else {
        r := EvictAndPut(key, value);
      }
    }

    /** The `except` branch of `Cache.put` (lines 134-138): evict, put again, and
        access the key once more when that put succeeded. */
    method EvictAndPut(key: K, value: V) returns (r: Outcome)
      requires Valid() && storage.Full()
      modifies Repr()
      ensures Valid()
      ensures (r, View()) == Tiers.Put(old(View()), key, value)
      decreases |storage.db|, 0
    {
      ValidView();
      ghost var t := View();
      var evicted := Evict();
      if evicted.Fail? {
        return evicted;
      }
      Tiers.PutWhenFull(t, key, value);
      ghost var e := View();
      r := Put(key, value);
      if r.Done? {
        Tiers.AccessAfterPut(e, key, value);
        Tiers.PutKeepsValid(e, key, value);
        Access(key);
      }
    }

    /** `key_accessed` on a stored key (line 138). */
    method Access(key: K)
      requires Valid() && Tiers.TierValid(View()) && key in storage.db && !Tiers.Defect(View(), key)
      modifies policy, policy.ll
      ensures Valid() && View() == Tiers.Access(old(View()), key)
    {
      ghost var t := View();
      Tiers.AccessTrackedKeepsValid(t, key);
      policy.KeyAccessed(key);
    }

    /** Lines 135-136: the policy names the least recently used key and the storage
        drops it; the policy fails when it tracks no key. */
    method Evict() returns (r: Outcome)
      requires Valid() && storage.Full()
      modifies Repr()
      ensures Valid()
      ensures r.Fail? <==> old(policy.order) == []
      ensures r.Fail? ==> r == Fail(PolicyEmpty) && View() == old(View())
      ensures r.Done? ==> View() == Tiers.Evict(old(View())) && |storage.db| < |old(storage.db)|
    {
      ValidView();
      ghost var t := View();
      var victim := policy.KeyToRemove();
      if victim.Err? {
        return Fail(victim.error);
      }
      Tiers.EvictKeepsValid(t);
      r := storage.Remove(victim.value);
    }

    /** `Cache.get` (lines 140-142): reads the storage only. */
    method Get(key: K) returns (r: Result<V>)
      requires Valid()
      ensures r == Tiers.Lookup(View(), key)
    {
      r := storage.Get(key);
    }
  }
}
