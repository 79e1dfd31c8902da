/** One `Cache` (main.py:125-142) seen as a value: its storage's dictionary and
    capacity, the recency order its LRU policy keeps (most recent first), and whether
    the policy's list still carries the self-loop made by `make_node_head` on an
    empty list. */
module Tiers {
  import opened Wrappers
  import opened Seqs
  import opened Recency

  datatype Tier<K, V> = Tier(db: map<K, V>, order: seq<K>, capacity: Option<nat>, looped: bool)

  /** The storage holds exactly the keys the policy tracks, each once, no more of
      them than the capacity allows, and the self-loop mark only on a non-empty list. */
  ghost predicate TierValid<K, V>(t: Tier<K, V>) {
    && Distinct(t.order)
    && t.db.Keys == (set k | k in t.order)
    && (t.capacity.Some? ==> |t.db| <= t.capacity.value)
    && (t.looped ==> t.order != [])
  }

  /** The test of `HashMapBasedStorage.put` (line 30); an unbounded storage is never full. */
  predicate Full<K, V>(t: Tier<K, V>) {
    t.capacity == Some(|t.db|)
  }

  /** Accessing `key` would hit the self-loop defect of lines 62-64. */
  predicate Defect<K, V>(t: Tier<K, V>, key: K) {
    t.looped && |t.order| >= 2 && key == Last(t.order)
  }

  /** `key_accessed`: `key` becomes the most recent key; a list that was empty
      gets the self-loop mark, which stays until the next eviction. */
  function Access<K, V>(t: Tier<K, V>, key: K): Tier<K, V> {
    t.(order := Touch(t.order, key), looped := t.order == [] || t.looped)
  }

  /** `key_to_remove` followed by `storage.remove` (lines 135-136): the least
      recently used key leaves both the policy and the storage. */
  function Evict<K, V>(t: Tier<K, V>): (r: Tier<K, V>)
    requires t.order != []
    ensures |r.order| == |t.order| - 1
  {
    t.(db := t.db - {Last(t.order)}, order := t.order[..|t.order| - 1], looped := false)
  }

  /** `Cache.put` (lines 130-138): store the pair and access the key; when the
      storage is full, first evict the least recently used key, put again, and
      access the key once more. The eviction fails on a policy with no key. This is
      what `Cache.put` does only when the put does not reach the self-loop defect,
      that is when `Full(t) || !Defect(t, key)`: on the defect the source corrupts its
      list (`RecencyList.SelfLoopedTailOrphans`), while this function moves the key
      to the front. */
  function Put<K, V>(t: Tier<K, V>, key: K, value: V): (Outcome, Tier<K, V>)
    decreases |t.order|, 1
  {
    if !Full(t) then (Done, Access(t.(db := t.db[key := value]), key))
    else if t.order == [] then (Fail(PolicyEmpty), t)
    else PutAfterEvict(t, key, value)
  }

  /** Lines 135-138: after the eviction from a full storage, put again, then access
      the key once more when that succeeded. */
  function PutAfterEvict<K, V>(t: Tier<K, V>, key: K, value: V): (Outcome, Tier<K, V>)
    requires t.order != []
    decreases |t.order|, 0
  {
    var (r, t') := Put(Evict(t), key, value);
    if r.Fail? then (r, t') else (Done, Access(t', key))
  }

  /** `Cache.get` (lines 140-142): the stored value, `KeyError` when absent; the
      policy is not told about reads. */
  function Lookup<K, V>(t: Tier<K, V>, key: K): (r: Result<V>)
    ensures r.Ok? <==> key in t.db
    ensures r.Ok? ==> r.value == t.db[key]
    ensures r.Err? ==> r.error == NotFound
  {
    if key in t.db then Ok(t.db[key]) else Err(NotFound)
  }

  /** A valid tier holds as many keys as its order. */
  lemma TierSize<K, V>(t: Tier<K, V>)
    requires TierValid(t)
    ensures |t.db| == |t.order|
  {
    DistinctCard(t.order);
    assert |t.db| == |t.db.Keys|;
  }

  lemma EvictKeepsValid<K, V>(t: Tier<K, V>)
    requires TierValid(t) && t.order != []
    ensures TierValid(Evict(t))
    ensures Last(t.order) in t.db && !Full(Evict(t)) && !Evict(t).looped
  {
    TierSize(t);
    DistinctTail(t.order);
    var o := t.order;
    var o' := o[..|o| - 1];
    assert (set k | k in o') == (set k | k in o) - {Last(o)} by {
      forall k | k in o ensures k in o' || k == Last(o) {
        var i :| 0 <= i < |o| && o[i] == k;
        if i < |o| - 1 {
          assert o'[i] == k;
        }
      }
    }
    TierSize(Evict(t));
  }

  /** Storing a key that is tracked afterwards, then accessing it, keeps a tier valid
      as long as the storage stays within its capacity. */
  lemma StoreAccessKeepsValid<K, V>(t: Tier<K, V>, key: K, value: V)
    requires TierValid(t) && !Full(t)
    ensures TierValid(Access(t.(db := t.db[key := value]), key))
  {
    StoreWithinCapacity(t.db, t.capacity, key, value);
    TouchKeepsDistinct(t.order, key);
    TouchKeys(t.order, key);
    assert t.db[key := value].Keys == t.db.Keys + {key};
  }

  /** Storing into a storage that is not full keeps it within its capacity. */
  lemma StoreWithinCapacity<K, V>(db: map<K, V>, capacity: Option<nat>, key: K, value: V)
    requires capacity.Some? ==> |db| <= capacity.value
    requires capacity != Some(|db|)
    ensures capacity.Some? ==> |db[key := value]| <= capacity.value
  {
  }

  /** `Cache.put` keeps the storage and the policy in step and within capacity. */
  lemma {:induction false} PutKeepsValid<K, V>(t: Tier<K, V>, key: K, value: V)
    requires TierValid(t)
    ensures TierValid(Put(t, key, value).1)
    decreases |t.order|
  {
    if !Full(t) {
      StoreAccessKeepsValid(t, key, value);
    } else if t.order != [] {
      EvictKeepsValid(t);
      PutKeepsValid(Evict(t), key, value);
      var t' := Put(Evict(t), key, value).1;
      if Put(Evict(t), key, value).0.Done? {
        AccessTrackedKeepsValid(t', key);
      }
    }
  }

  /** A key the storage does not hold is not the policy's last key either, so a
      `put` of it never reaches the self-loop defect. */
  lemma AbsentNotDefect<K, V>(t: Tier<K, V>, key: K)
    requires TierValid(t) && key !in t.db
    ensures !Defect(t, key)
  {
  }

  /** Accessing a key the storage already holds keeps a tier valid. */
  lemma AccessTrackedKeepsValid<K, V>(t: Tier<K, V>, key: K)
    requires TierValid(t) && key in t.db
    ensures TierValid(Access(t, key))
  {
    TouchKeepsDistinct(t.order, key);
    TouchKeys(t.order, key);
  }

  /** `Cache.put` fails exactly on a storage of capacity zero, where the policy has
      no key to give up, and then it changes nothing. */
  lemma {:induction false} PutFailsOnlyWithoutRoom<K, V>(t: Tier<K, V>, key: K, value: V)
    requires TierValid(t)
    ensures Put(t, key, value).0.Fail? <==> t.capacity == Some(0)
    ensures t.capacity == Some(0) ==> Put(t, key, value) == (Fail(PolicyEmpty), t)
  {
    TierSize(t);
    if Full(t) && t.order != [] {
      EvictKeepsValid(t);
      assert Put(Evict(t), key, value).0.Done?;
    }
  }

  /** What `Cache.put` leaves behind when it succeeds: the key holds the new value
      and is the most recent key; when the storage was full, the least recently used
      key has been dropped first, even when `key` was already stored and the
      overwrite needed no room. No other key changes. */
  lemma PutEffect<K, V>(t: Tier<K, V>, key: K, value: V)
    requires TierValid(t) && t.capacity != Some(0)
    ensures var (r, t') := Put(t, key, value);
      && r == Done
      && t'.capacity == t.capacity
      && (!Full(t) ==> t'.db == t.db[key := value] && t'.order == Touch(t.order, key))
      && (Full(t) ==>
            && t.order != []
            && t'.db == (t.db - {Last(t.order)})[key := value]
            && t'.order == Touch(t.order[..|t.order| - 1], key))
  {
    TierSize(t);
    if Full(t) {
      EvictKeepsValid(t);
      var e := Evict(t);
      assert Put(e, key, value) == (Done, Access(e.(db := e.db[key := value]), key));
      TouchTwice(e.order, key);
    }
  }

  /** After a successful `Cache.put`, reading the key gives the value just put. */
  lemma PutThenLookup<K, V>(t: Tier<K, V>, key: K, value: V)
    requires TierValid(t) && t.capacity != Some(0)
    ensures Lookup(Put(t, key, value).1, key) == Ok(value)
    ensures Put(t, key, value).1.order != [] && Put(t, key, value).1.order[0] == key
  {
    PutEffect(t, key, value);
  }

  /** Under a full storage, `Cache.put` evicts the key that every other tracked key
      is more recent than. */
  lemma PutEvictsLeastRecent<K, V>(t: Tier<K, V>, key: K, value: V, other: K)
    requires TierValid(t) && Full(t) && t.capacity != Some(0)
    requires other in t.db && other != key
    ensures other !in Put(t, key, value).1.db <==> other == Last(t.order)
    ensures other != Last(t.order) ==> MoreRecent(t.order, other, Last(t.order))
  {
    TierSize(t);
    PutEffect(t, key, value);
    if other != Last(t.order) {
      VictimIsLeastRecent(t.order, other);
    }
  }

  /** After a successful `Cache.put` the key is the most recent one, so the second
      `key_accessed` of line 138 changes nothing and cannot hit the defect. */
  lemma AccessAfterPut<K, V>(t: Tier<K, V>, key: K, value: V)
    requires TierValid(t) && Put(t, key, value).0.Done?
    ensures !Defect(Put(t, key, value).1, key)
    ensures Access(Put(t, key, value).1, key) == Put(t, key, value).1
  {
    PutFailsOnlyWithoutRoom(t, key, value);
    PutEffect(t, key, value);
    PutKeepsValid(t, key, value);
    var o := Put(t, key, value).1.order;
    assert o[0] == key;
    RemoveAt(o, 0);
    assert Touch(o, key) == o;
  }

  /** On a full storage holding a key, `Cache.put` is a put into the storage
      without its least recently used key. */
  lemma PutWhenFull<K, V>(t: Tier<K, V>, key: K, value: V)
    requires TierValid(t) && Full(t) && t.order != []
    ensures Put(t, key, value) == Put(Evict(t), key, value)
  {
    EvictKeepsValid(t);
    TierSize(t);
    PutFailsOnlyWithoutRoom(Evict(t), key, value);
    AccessAfterPut(Evict(t), key, value);
  }
}
