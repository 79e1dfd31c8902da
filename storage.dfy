/** `HashMapBasedStorage` (main.py:23-38): a dictionary with a capacity check. */
module Storage {
  import opened Wrappers

  class HashMapStorage<K(==), V> {
    /** `None` is the default capacity `float('inf')`: the storage is never full. */
    const capacity: Option<nat>
    var db: map<K, V>

    /** The size never exceeds the capacity. */
    ghost predicate Valid()
      reads this
    {
      capacity.Some? ==> |db| <= capacity.value
    }

    /** The test of line 30: the number of entries equals the capacity. */
    predicate Full()
      reads this
    {
      capacity == Some(|db|)
    }

    constructor (capacity: Option<nat>)
      ensures this.capacity == capacity && db == map[]
      ensures Valid()
    {
      this.capacity := capacity;
      db := map[];
    }

    /** Refuses with `StorageFull` exactly when the storage is full, even when `key`
        is already present; otherwise maps `key` to `value` and changes no other key. */
    method Put(key: K, value: V) returns (r: Outcome)
      requires Valid()
      modifies this
      ensures Valid()
      ensures r == Fail(StorageFull) <==> old(Full())
      ensures r.Fail? ==> r == Fail(StorageFull) && db == old(db)
      ensures r.Done? ==> db == old(db)[key := value]
    {
      if Full() {
        return Fail(StorageFull);
      }
      db := db[key := value];
      return Done;
    }

    /** The stored value, or `NotFound` (`KeyError`) for an absent key. */
    method Get(key: K) returns (r: Result<V>)
      ensures key in db ==> r == Ok(db[key])
      ensures key !in db ==> r == Err(NotFound)
    {
      if key in db {
        return Ok(db[key]);
      }
      return Err(NotFound);
    }

    /** Deletes `key` and nothing else, or fails with `NotFound` when it is absent. */
    method Remove(key: K) returns (r: Outcome)
      requires Valid()
      modifies this
      ensures Valid()
      ensures key in old(db) ==> r == Done && db == old(db) - {key}
      ensures key !in old(db) ==> r == Fail(NotFound) && db == old(db)
    {
      if key !in db {
        return Fail(NotFound);
      }
      db := db - {key};
      return Done;
    }
  }
}
