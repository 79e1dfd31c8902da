# Multilevel LRU cache, modelled in Dafny

This project models `main.py`, an in-memory tiered key-value cache, and proves what its
operations do. The cache has five layers, and each is modelled as an imperative Dafny
class that updates its fields in place, as the Python objects do:

- `HashMapBasedStorage` (`Storage.HashMapStorage`) is a dictionary with a capacity.
  `put` refuses when the number of entries equals the capacity, even for a key that
  is already stored. The default capacity `float('inf')` is `None`, meaning never full.
- `Node`, `LL` and `LRUKeyAccessPolicy` (`LruPolicy.LinkedList`, `LruPolicy.LruPolicy`)
  form the least-recently-used policy: a key-to-node dictionary plus a doubly-linked
  recency list. The nodes live in an arena, a sequence indexed by position, and
  `prev`/`next` are optional positions.
  - `LinkedList.MakeNodeHead` and `LinkedList.KeyToRemove` are proved equal to the
    pure pointer functions `RecencyList.Promote` and `RecencyList.PopTail`, which
    follow lines 58-92 branch by branch.
  - The policy carries ghost fields: the abstract recency order (most recent first)
    and the node of each key. `Valid()` ties these to the list (`LruTracking.Tracks`).
- `Cache` (`Caches.Cache`) pairs a storage with a policy. `put` keeps the source's
  recursion: on a full storage it evicts the policy's victim, puts again, then accesses
  the key once more. Its whole effect is proved equal to `Tiers.Put`, the cache seen
  as a value (`Tiers.Tier`: entries, recency order, capacity).
- `CacheLevel` (`Levels.CacheLevel`) holds a cache and a `next` reference. Its `get`
  reads through and backfills, and its `put` writes through. They are proved against
  `ReadThrough.Get` and `Chain.Put` on the sequence of the levels' values. A ghost
  sequence of levels, which the `next` links must follow, rules out cycles.
- `MultilevelCache` (`Multilevel.MultilevelCache`) adds levels at the end of the chain
  by walking the `next` links. It delegates reads and writes to the front level and
  keeps the latest responses in two deques bounded by `last_num_stat`, newest first.
  A ghost history of every response ever appended proves that each deque is always
  the latest `last_num_stat` of them.

Python exceptions become results (`Wrappers.Result`, `Wrappers.Outcome`), one error
kind each:

- `StorageFull`: `StorageFullException`;
- `NotFound`: `KeyError`;
- `PolicyEmpty`: `None.val`, raised when a policy with no key is asked for a victim,
  which is what a storage of capacity 0 leads to;
- `NoLevel`: `None.get`/`None.put` on a multilevel cache with no level.

**The self-loop defect.** Lines 62-64 link the first node of an empty list to itself.
While that node stays the tail, its `next` is not `None`, so a later `make_node_head`
on it takes the inner-node branch. That leaves `head == tail` and orphans every other
node. The model reproduces the lines as written:

- `RecencyList.InitSingle` makes the self-loop;
- `RecencyList.SelfLoopedTailOrphans` proves the outcome on the linked-list model;
- `Tiers.Tier.looped` records the trace;
- the operations that would reach the defect (`LruPolicy.LruPolicy.KeyAccessed`,
  `Caches.Cache.Put`, the level writes) require that it is not hit. The predicates
  `LruPolicy.LruPolicy.Defect`, `Tiers.Defect` and `Chain.Clear` state that
  condition.

The self-looped node stays the tail until it is evicted, and only that eviction clears
the trace. The one `make_node_head` call that would move it away from the tail is the
defect path itself. Reads need no such condition: a backfill puts a key the level
does not hold, and such a key is never the self-looped tail (`Tiers.AbsentNotDefect`).

**What a backfill stores (lines 173-176).** On a miss, `CacheLevel.get` puts into its
cache the `ReadResponse` object the next level returned, not that response's value.
It then answers with a new `ReadResponse` wrapping that object. Values are therefore
`ReadThrough.Value`: either `Plain(v)`, a value a caller put, or `Read(x)`, a response
wrapping `x`. A value found at level `j` comes back wrapped `j` times, and level
`i < j` is left holding it wrapped `j - i` times. `ReadThrough.Get` is the read as
written, and the level and multilevel classes are proved against it. `Chain.Get` is
the read that hands on the value itself. `MultilevelCache.get` (line 207) gives its
caller `read_response.value`, so a read evidently means to answer with the value
found. `Chain.Get` is that read, and its lemmas hold for it (see Findings).

**The `__main__` scenario (lines 215-228).** Three levels of capacity 5 receive the
writes of `a` to `f`. The scenario is sometimes read as evicting `a` from L1 only and
then backfilling it from L2 on the final `get('a')`. The code does otherwise: `put`
writes through to every level, so every level evicts `a` on the sixth write, and
`get('a')` raises `KeyError`. `Demo.DemoReadOfFirstKeyMisses` proves this for any
capacity `c`, any number of levels and any `c + 1` distinct keys. `Demo.DemoRun` is
the case of the demo itself.

## Model

| member | source | states |
|---|---|---|
| Storage.HashMapStorage.constructor | main.py:24-26 | a new storage is empty and has the given capacity (`None` standing for the unbounded default) |
| Storage.HashMapStorage.Put | main.py:28-32 | fails with `StorageFull` exactly when the size equals the capacity, present key or not, and then changes nothing; otherwise maps the key to the value and changes no other key; the size never exceeds the capacity |
| Storage.HashMapStorage.Get | main.py:34-35 | the stored value for a present key, `NotFound` for an absent one |
| Storage.HashMapStorage.Remove | main.py:37-38 | deletes exactly the key when present; fails with `NotFound` and changes nothing when absent |
| LruPolicy.LinkedList.constructor | main.py:55-57 | a new list has no nodes, no head and no tail |
| LruPolicy.LinkedList.NewNode | main.py:49-52 | `Node(key)` is a detached node with that key, added to the arena; the ends of the list are untouched |
| LruPolicy.LinkedList.MakeNodeHead | main.py:58-82 | the arena and end pointers afterwards are `Promote` of those before: every branch and both recursive calls of `make_node_head` |
| LruPolicy.LinkedList.KeyToRemove | main.py:84-92 | returns the tail (`None` on an empty list) and leaves the list as `PopTail` says |
| LruPolicy.LruPolicy.constructor | main.py:95-97 | a new policy tracks no key, and its dictionary and list are empty |
| LruPolicy.LruPolicy.KeyAccessed | main.py:98-104 | the key becomes the most recent and the other keys keep their order (`Touch`); a tracked key adds no dictionary entry; the dictionary's keys grow by exactly the key |
| LruPolicy.LruPolicy.AccessTrackedKey | main.py:99-100 | a tracked key's node moves to the front; the dictionary is unchanged |
| LruPolicy.LruPolicy.AccessNewKey | main.py:101-104 | a new key gets a node and a dictionary entry and goes in front of all the others |
| LruPolicy.LruPolicy.Register | main.py:102-103 | the new node is the next arena position and holds the key; the dictionary maps the key to it and gains only that key |
| LruPolicy.LruPolicy.MoveToFront | main.py:100 | after `make_node_head` on the key's node, the list represents the given new order and the dictionary is unchanged |
| LruPolicy.LruPolicy.KeyToRemove | main.py:106-109 | returns the least recently used key and drops it from the order and from the dictionary; with no key tracked it fails with `PolicyEmpty` and changes nothing |
| RecencyList.InitSingle | main.py:61-64 | linking a node into an empty list keeps every pointer inside the arena and every node's key |
| RecencyList.PushFront | main.py:66-70 | the same for linking a detached node in front of the head |
| RecencyList.UnlinkTail | main.py:71-74 | the same for cutting off the tail |
| RecencyList.Unlink | main.py:76-81 | the same for cutting out an inner node |
| RecencyList.Promote | main.py:58-82 | `make_node_head(n)` always leaves `n` as the head, and as the tail too when the list was empty |
| RecencyList.PopTail | main.py:84-92 | `key_to_remove` returns the old tail and keeps pointers closed and keys unchanged |
| RecencyList.InitSingleLinks | main.py:61-64 | on an empty list the node becomes the one-element list, and the self-loop trace is set |
| RecencyList.PushFrontLinks | main.py:66-70 | a detached node pushed in front gives the list with that node first |
| RecencyList.UnlinkTailLinks | main.py:71-74 | cutting off a tail whose `next` is `None` gives the list without its last node and detaches that node |
| RecencyList.UnlinkLinks | main.py:76-81 | cutting out an inner node gives the list without it and detaches it |
| RecencyList.PromoteMovesToFront | main.py:58-82 | outside the self-looped-tail case, `make_node_head` on a listed or detached node gives the list with that node moved or inserted at the front (`Touch`) |
| RecencyList.PromoteListed | main.py:58-82 | the same for the node at any position of the list |
| RecencyList.PromoteTail | main.py:71-75 | the tail branch: cut off, then linked in front |
| RecencyList.PromoteInner | main.py:76-82 | the inner-node branch: cut out, then linked in front |
| RecencyList.PopTailDropsLast | main.py:84-92 | on an empty list nothing changes and `None` is returned; otherwise the last node is returned and the list is the rest, with no self-loop trace |
| RecencyList.HeadIsTailOnlyWhenSingle | main.py:85-88 | `head == tail` holds only on a list of at most one node |
| RecencyList.SelfLoopedTailOrphans | main.py:61-82 | the defect: re-accessing a self-looped tail among two or more nodes makes it both head and tail, with `next` still pointing into the old list, so that no list is represented and the next `key_to_remove` empties the list |
| LruTracking.TrackedKeys | main.py:96-104 | the dictionary holds exactly the keys of the recency order |
| LruTracking.SelfLoopedTailIsDefect | main.py:62-82 | a tracked key's node is the self-looped tail exactly when the key is the least recent of two or more keys while the trace is set |
| LruTracking.KeyedHandlesDistinct | main.py:96-104 | distinct keys have distinct nodes |
| LruTracking.AccessTracked | main.py:99-100 | `key_accessed` on a tracked key, outside the defect, keeps the dictionary and moves the key and its node to the front |
| LruTracking.AccessNew | main.py:101-104 | `key_accessed` on a new key registers a new node and puts key and node in front; the trace is set exactly when the list was empty |
| LruTracking.RemoveTracked | main.py:106-109 | `key_to_remove` drops the least recent key and its node from order, dictionary and list |
| Recency.Touch | main.py:98-104 | an access puts the key first and tracks exactly the old keys plus that key |
| Recency.TouchKeepsDistinct | main.py:98-104 | an access never makes a key tracked twice |
| Recency.TouchAbsent | main.py:101-104 | a new key goes in front of all the tracked keys, which keep their order |
| Recency.TouchKeys | main.py:98-104 | the set of tracked keys grows by the accessed key and loses none |
| Recency.TouchTwice | main.py:137-138 | accessing a key twice in a row is the same as once |
| Recency.TouchOrder | main.py:98-104 | the accessed key becomes more recent than every other, and every other pair keeps its relative recency |
| Recency.VictimIsLeastRecent | main.py:106-109 | every other tracked key is more recent than the victim |
| Recency.AccessFreshKeys | main.py:101-104 | distinct new keys accessed once each are stacked in front in reverse order |
| Recency.DrainReverse | main.py:106-109 | repeated `key_to_remove` on a reversed sequence returns it in its original order |
| Recency.OnceAccessedKeysLeaveOldestFirst | main.py:98-109 | distinct keys accessed once each from an empty policy are handed out as victims oldest first |
| Tiers.TierSize | main.py:30 | a consistent cache stores as many keys as its policy tracks |
| Tiers.EvictKeepsValid | main.py:135-136 | the victim is stored, and evicting it keeps storage and policy in step and leaves the storage not full |
| Tiers.StoreAccessKeepsValid | main.py:132-133 | storing into a non-full storage, then accessing the key, keeps storage and policy in step and within capacity |
| Tiers.StoreWithinCapacity | main.py:28-32 | a storage that is not full stays within capacity after a store |
| Tiers.PutKeepsValid | main.py:130-138 | `Cache.put` keeps storage and policy holding the same keys, within capacity |
| Tiers.AbsentNotDefect | main.py:62-64 | a key the storage does not hold is never the self-looped tail, so putting it cannot hit the defect |
| Tiers.AccessTrackedKeepsValid | main.py:138 | accessing a stored key keeps the cache consistent |
| Tiers.PutFailsOnlyWithoutRoom | main.py:130-138 | `Cache.put` fails exactly on capacity 0, with `PolicyEmpty`, and then changes nothing |
| Tiers.PutEffect | main.py:130-138 | a successful `Cache.put` stores the value and makes the key the most recent; on a full storage the least recently used key is dropped first, even on an overwrite; no other key changes |
| Tiers.PutThenLookup | main.py:130-142 | after `Cache.put(k, v)` on a capacity of at least 1, `Cache.get(k)` returns `v` and `k` is the most recent key |
| Tiers.PutEvictsLeastRecent | main.py:134-137 | on a full storage exactly the victim leaves, and it is the least recently used key |
| Tiers.AccessAfterPut | main.py:137-138 | the second `key_accessed` after the retry cannot hit the defect and changes nothing |
| Tiers.PutWhenFull | main.py:134-138 | on a full storage, `Cache.put` is the put into the storage without its victim |
| Caches.Cache.ValidView | main.py:125-128 | a consistent cache seen as a value is a valid tier |
| Caches.Cache.constructor | main.py:126-128 | a cache over a storage and a policy that hold the same keys is consistent |
| Caches.Cache.Put | main.py:130-138 | the outcome and the new storage and policy are those of `Tiers.Put`, and the cache stays consistent |
| Caches.Cache.EvictAndPut | main.py:134-138 | on a full storage, evicting, putting again and accessing the key leave the outcome and the cache's new state equal to `Tiers.Put` of the old state, and the cache consistent |
| Caches.Cache.Access | main.py:138 | the policy's order becomes `Tiers.Access` of the old one |
| Caches.Cache.Evict | main.py:135-136 | fails with `PolicyEmpty` exactly when no key is tracked; otherwise drops the victim from policy and storage, and the storage shrinks |
| Caches.Cache.Get | main.py:140-142 | returns `Tiers.Lookup` of the cache and changes nothing |
| Chain.FirstHolder | main.py:161-176 | the first level holding the key: it holds the key, and no level in front of it does |
| Chain.GetKeepsValid | main.py:161-176 | the corrected read keeps every level consistent |
| Chain.GetFindsFirstHolder | main.py:161-176 | the corrected read fails with `KeyError` exactly when no level holds the key; otherwise it answers with the first holder's value, or fails only through a level of capacity 0 in front of the holder |
| Chain.GetFillsFrontLevels | main.py:168-176 | backfill in the corrected read: with room in front of the holder, the read answers with the holder's value, every level up to and including the holder then maps the key to it, and every level in front of the holder has it as its most recent key |
| Chain.GetKeepsBackLevels | main.py:161-176 | the corrected read changes no level from the first holder on, so a hit on the front level changes nothing |
| Chain.GetMissChangesNothing | main.py:168-171 | in the corrected read, a key no level holds raises `KeyError` from the last level and changes nothing |
| Chain.GetTwice | main.py:161-176 | after a successful corrected read the front level holds the key, so reading again gives the same answer and changes nothing |
| Chain.PutKeepsValid | main.py:178-185 | a write keeps every level consistent |
| Chain.PutWritesThrough | main.py:178-185 | write-through: with room in every level, the write succeeds and every level maps the key to the value, as its most recent key |
| Chain.PutStopsAtFullLevel | main.py:178-182 | a write fails with `PolicyEmpty` at the first level of capacity 0, after writing every level in front of it |
| Chain.PutKeepsBackLevels | main.py:178-182 | a level of capacity 0 and those behind it are left unchanged by a write |
| Chain.PutKeepsLaterLevels | main.py:178-182 | the same for such a level behind the front |
| Chain.GetStep | main.py:168-173 | in the corrected read, a local miss with a failing next level fails the same way and changes only the rest |
| Chain.GetBackfill | main.py:173-176 | in the corrected read, the value found behind the front level is put into the front level and answered; a failure of that put propagates |
| Chain.PutStep | main.py:180-182 | a write stores into the front level, then into the rest unless that failed |
| Chain.PutThenGet | main.py:178-185 | after a write through levels with room, the corrected read gives the value written from the front level and changes nothing |
| ReadThrough.Wrapped | main.py:173-176 | a value wrapped `n` times in responses is `n` responses deeper than the value |
| ReadThrough.GetKeepsValid | main.py:161-176 | a read as written keeps every level consistent |
| ReadThrough.GetFindsFirstHolder | main.py:161-176 | a read as written fails with `KeyError` exactly when no level holds the key; otherwise it answers with what the first holder holds, wrapped once per level in front of it, or fails only through a level of capacity 0 in front of the holder |
| ReadThrough.WrapsOncePerLevel | main.py:168-176 | with room in front of the holder `j`, the read answers with the holder's value wrapped `j` times, each level `i <= j` then maps the key to it wrapped `j - i` times, and each level in front of the holder has the key as its most recent key |
| ReadThrough.AnswersDiffer | main.py:173-176 | with the holder behind the front level and room in front of it, the read as written answers with the corrected read's answer wrapped once per level crossed, so the two answers differ |
| ReadThrough.SecondLevelExample | main.py:173-176 | two levels of capacity 1 with only the second holding `k`: the corrected read answers `v`, the read as written answers a response wrapping `v` |
| ReadThrough.FrontHitAgrees | main.py:163-166 | a hit on the front level answers alike in both reads and changes nothing |
| ReadThrough.GetKeepsBackLevels | main.py:161-176 | a read as written changes no level from the first holder on |
| ReadThrough.GetMissChangesNothing | main.py:168-171 | a key no level holds raises `KeyError` from the last level and changes nothing |
| ReadThrough.GetTwice | main.py:161-176 | after a successful read the front level holds the answer, so reading again gives the same answer and changes nothing |
| ReadThrough.GetStep | main.py:168-173 | a local miss with a failing next level fails the same way and changes only the rest |
| ReadThrough.GetBackfill | main.py:173-176 | the response `x` from behind the front level is put into the front level and the read answers `Read(x)`; a failure of that put propagates |
| ReadThrough.PutThenGet | main.py:178-185 | after a write through levels with room, a read gives the value written, unwrapped, from the front level and changes nothing |
| Levels.CacheLevel.constructor | main.py:156-159 | a level has the given name, cache and next level |
| Levels.CacheLevel.Get | main.py:161-176 | the answer and the new caches of the chain starting here are those of `ReadThrough.Get`, the read as written; every cache stays consistent and apart |
| Levels.CacheLevel.GetBelow | main.py:168-176 | the same for the `except KeyError` branch with a next level |
| Levels.CacheLevel.Put | main.py:178-185 | the outcome and the new caches of the chain starting here are those of `Chain.Put` |
| Levels.CacheLevel.PutHere | main.py:180 | the level's own cache changes as `Tiers.Put` says, and the levels behind it do not change |
| Levels.LinkedEnd | main.py:201-202 | in a chain of links, only the last level has no next level |
| Levels.LinkedDistinct | main.py:196-203 | a chain of links never repeats a level |
| Levels.AppendLevel | main.py:203 | a consistent cache apart from the chain's caches can join the chain behind its last level, whose values gain that cache at the end |
| Levels.LinkedExtended | main.py:203 | linking the last level to a new unlinked level gives the chain extended by it |
| Multilevel.AppendLeft | main.py:193-194 | `appendleft` on a deque bounded by `maxlen` puts the element in front and drops the oldest at the bound, so the length is the smaller of the old length plus one and `maxlen` |
| Multilevel.Recent | main.py:193-194 | the latest `n` responses of a history, at most `n` of them |
| Multilevel.AppendLeftKeepsRecent | main.py:206 | appending on the left keeps a bounded deque equal to the latest `maxlen` of everything appended, newest first |
| Multilevel.MultilevelCache.constructor | main.py:191-194 | the front level starts the given chain, and both deques start empty |
| Multilevel.MultilevelCache.AddCacheLevel | main.py:196-203 | the level is appended at the end of the chain, which keeps its other levels in order; it becomes the front when there was none |
| Multilevel.MultilevelCache.Last | main.py:200-202 | the walk along `next` ends at the last level of the chain |
| Multilevel.MultilevelCache.Link | main.py:203 | linking the last level to the new one extends the chain by it and keeps the cache consistent |
| Multilevel.MultilevelCache.Get | main.py:204-207 | the answer and new caches are those of `ReadThrough.Get`; a response is recorded exactly on success; without a front level the read fails |
| Multilevel.MultilevelCache.GetFront | main.py:205 | the front level's read has the effect of `ReadThrough.Get` and records nothing |
| Multilevel.MultilevelCache.RecordGet | main.py:206 | the read deque stays the latest `last_num_stat` read responses, now including the new one |
| Multilevel.MultilevelCache.Put | main.py:209-211 | the outcome and new caches are those of `Chain.Put`; a response is recorded exactly on success; without a front level the write fails |
| Multilevel.MultilevelCache.PutFront | main.py:210 | the front level's write has the effect of `Chain.Put` and records nothing |
| Multilevel.MultilevelCache.RecordPut | main.py:211 | the write deque stays the latest `last_num_stat` write responses, now including the new one |
| Demo.Empty | main.py:217 | an empty level of capacity `c` is a valid tier |
| Demo.FreshPut | main.py:225-226 | a write of a new key into a level with room stores it as the most recent key |
| Demo.FillFresh | main.py:225-226 | distinct new keys written into a level with room for all are stored, stacked most recent first |
| Demo.CopiesWriteAlike | main.py:225-226 | equal levels with room receive the same writes and stay equal |
| Demo.OneLevel | main.py:225-226 | the write beyond the capacity evicts the first key written and only it |
| Demo.DemoReadOfFirstKeyMisses | main.py:215-228 | after `c + 1` distinct writes into empty levels of capacity `c`, no level holds the first key, every level holds the others, and reading the first key raises `KeyError` and changes nothing |
| Demo.DemoRun | main.py:215-228 | the demo's three levels of capacity 5 after writing `a` to `f`: none holds `a`, all hold `f`, and `get('a')` raises `KeyError` |

## Findings

| source | as written | input that shows it | evidently intended | confidence | as-written member | corrected member |
|---|---|---|---|---|---|---|
| main.py:173-176 | on a miss, `value = self.next.get(key)` is the next level's `ReadResponse`; that object is put into this level's cache and wrapped in a new `ReadResponse` | two levels of capacity 1, only the second holding `k ↦ v`: `mlcache.get(k)` returns `ReadResponse(v)` instead of `v`, and the first level now maps `k` to `ReadResponse(v)` | the value inside the next level's response is stored and returned, so a read answers with the value found | not executed | ReadThrough.Get (ReadThrough.AnswersDiffer, ReadThrough.SecondLevelExample) | Chain.Get (Chain.GetFindsFirstHolder, Chain.GetFillsFrontLevels) |

## Left out

- Timing: the `time.time()` calls and the `time_took` field of the responses (lines 112-114, 162-185) are floating point and come from the clock. `Multilevel.Response` keeps only the value.
- The `print` on a miss (line 169) and `Response.__repr__` (lines 116-117) are output only.
- The abstract base classes `BaseStorage`, `BaseKeyAccessPolicy` and `BasecacheLevel` (lines 9-21, 40-46, 147-153) are not modelled. Only the concrete storage, policy and level are, so a level's `next` is always a `CacheLevel`.
- The optional `head`/`tail` arguments of `LL` and the `prev`/`next` arguments of `Node` (lines 49, 55) are never passed. The constructors start empty and detached.
- Node identity is an arena position. Nodes are never freed: a removed node stays in the arena, unreachable, as an unreferenced Python object would be.
- Keys need equality (`K(==)`). Python's hashing is not modelled.
- The `__main__` block is not a program here. Its scenario is the lemma `Demo.DemoReadOfFirstKeyMisses`.
- Reads do not update recency. As in the source, `Cache.get` never tells the policy.
- LruPolicy.LruPolicy.KeyAccessed: requires that the self-loop defect is not hit. Its outcome in that case is proved only on the linked-list model, by `RecencyList.SelfLoopedTailOrphans`. The policy's invariant no longer holds after it.
- LruPolicy.LruPolicy.AccessTrackedKey: the same precondition as `KeyAccessed`.
- LruPolicy.LinkedList.MakeNodeHead: requires the pointers that the branch taken dereferences to exist. Otherwise the source raises `AttributeError` on `None`.
- LruPolicy.LinkedList.KeyToRemove: requires that a list with two or more nodes has a tail with a predecessor. The source's `self.tail.prev.next` raises on `None` otherwise.
- Caches.Cache.Put: requires that the key is not the self-looped tail when the storage has room. A full storage evicts first and never reaches the defect.
- Caches.Cache.Access: requires the same.
- Caches.Cache.constructor: requires that the storage and the policy hold the same keys, as they do when both start empty.
- Levels.CacheLevel.Get: requires a ghost chain of levels that the `next` links follow and whose caches share no object. This excludes the cyclic chains the source allows. On such a chain a key that some level holds is still found within one lap (lines 163-166), and a key that no level holds recurses through line 173 until Python raises `RecursionError`. It also excludes two levels sharing one `Cache` object, which the source allows.
- Levels.CacheLevel.GetBelow: has the same precondition as `Get`: a chain of links whose caches share no object.
- Levels.CacheLevel.Put: requires the same chain, and `Chain.Clear`: no level's cache hits the self-loop defect when the key is put into it. `Chain.Clear` constrains every level, though a write stops at the first level of capacity 0 and never reaches the levels behind it. On a cyclic chain the source's `put` recurses through line 182 until `RecursionError`.
- Multilevel.MultilevelCache.Get: requires the chain that `Valid()` describes, as `Levels.CacheLevel.Get` does: links with no cycle, and caches that share no object.
- Multilevel.MultilevelCache.Put: has the same preconditions as `Levels.CacheLevel.Put`.
- Multilevel.MultilevelCache.AddCacheLevel: requires a level with no next level, not already in the chain, whose cache shares no object with the chain's caches. Appending a level that already links to further levels (the walk of lines 200-203 then reaches them too) is not modelled. A level already in the chain would make it cyclic.
- Chain.GetFindsFirstHolder: states the corrected read, which answers with the holder's value itself. The read as written answers with it wrapped once per level crossed (`ReadThrough.GetFindsFirstHolder`); see Findings.
- Chain.GetFillsFrontLevels: states the corrected read, whose backfill stores the holder's value itself. The read as written stores the next level's response (`ReadThrough.WrapsOncePerLevel`).
- Chain.GetBackfill: states the corrected read, which puts and answers the value found. The read as written puts the response found and answers a response wrapping it (`ReadThrough.GetBackfill`).
- Multilevel.MultilevelCache.constructor: takes `last_num_stat` as a `nat`. `deque(maxlen=None)`, which is unbounded, is not modelled, and neither is a negative value, for which `deque` raises `ValueError` (lines 193-194).
- Multilevel.MultilevelCache.constructor: takes the ghost chain that starts at the given front level, which must be linked and whose caches must be apart.
