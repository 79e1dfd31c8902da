/** `MultilevelCache` (main.py:190-211): the front level of a chain of cache levels,
    and two bounded deques holding the latest read and write responses, newest
    first. */
module Multilevel {
  import opened Wrappers
  import opened Seqs
  import opened Levels
  import Chain
  import ReadThrough

  /** `ReadResponse` and `WriteResponse` (lines 111-123), without their timings; a
      read response carries what the front level answered with (a value, or a
      response from a level behind it), a write response the value `None`. */
  datatype Response<V> = ReadResponse(value: Value<V>) | WriteResponse

  function Min(a: nat, b: nat): nat {
    if a <= b then a else b
  }

  /** `deque.appendleft` on a deque bounded by `maxlen`: the new element goes in
      front and, at the bound, the element at the other end drops out. */
  function AppendLeft<T>(q: seq<T>, x: T, maxlen: nat): (r: seq<T>)
    requires |q| <= maxlen
    ensures |r| == Min(|q| + 1, maxlen)
    ensures r != [] ==> r[0] == x && r[1..] == q[..|r| - 1]
  {
    if maxlen == 0 then []
    else if |q| < maxlen then [x] + q
    else [x] + q[..maxlen - 1]
  }

  /** The last `n` elements of `history` (at most), newest first. */
  function Recent<T>(history: seq<T>, n: nat): (r: seq<T>)
    ensures |r| == Min(|history|, n)
  {
    Reverse(history)[..Min(|history|, n)]
  }

  /** Appending on the left keeps a bounded deque equal to the latest elements of
      everything appended. */
  lemma AppendLeftKeepsRecent<T>(history: seq<T>, x: T, n: nat)
    ensures AppendLeft(Recent(history, n), x, n) == Recent(history + [x], n)
  {
    var rev := Reverse(history + [x]);
    assert rev == [x] + Reverse(history);
  }

  /** A multilevel cache is none of the objects of its levels' caches. */
  lemma {:induction false} NotInReprs<K, V>(levels: seq<CacheLevel<K, V>>, m: MultilevelCache<K, V>)
    ensures m !in Reprs(levels)
    decreases |levels|
  {
    if levels != [] {
      NotInReprs(levels[1..], m);
    }
  }

  class MultilevelCache<K(==), V> {
    /** `None` while no level has been added. */
    var front: CacheLevel?<K, V>
    /** The levels reached from `front`, in order. */
    ghost var levels: seq<CacheLevel<K, V>>
    const lastNumStat: nat
    var getQueue: seq<Response<V>>
    var putQueue: seq<Response<V>>
    /** Every response ever appended to each deque, oldest first. */
    ghost var gets: seq<Response<V>>
    ghost var puts: seq<Response<V>>

    ghost predicate Valid()
      reads this, levels, Reprs(levels)
    {
      Chained() && Logged()
    }

    /** `front` starts the chain of `levels`. */
    ghost predicate Chained()
      reads this`front, this`levels, levels, Reprs(levels)
    {
      && (front == null <==> levels == [])
      && (front != null ==> levels[0] == front && Linked(levels) && Sound(levels))
    }

    /** Each deque holds the latest responses appended to it, newest first. */
    ghost predicate Logged()
      reads this`getQueue, this`putQueue, this`gets, this`puts
    {
      getQueue == Recent(gets, lastNumStat) && putQueue == Recent(puts, lastNumStat)
    }

    /** Lines 191-194 (`last_num_stat` defaults to 5): the chain starting at `front`
        is `levels`, and both deques start empty. */
    constructor (front: CacheLevel?<K, V>, lastNumStat: nat, ghost levels: seq<CacheLevel<K, V>>)
      requires front == null ==> levels == []
      requires front != null ==> levels != [] && levels[0] == front && Linked(levels) && Sound(levels)
      ensures Valid()
      ensures this.front == front && this.levels == levels && this.lastNumStat == lastNumStat
      ensures getQueue == [] && putQueue == [] && gets == [] && puts == []
    {
      ReprsAllocated(levels);
      this.front := front;
      this.levels := levels;
      this.lastNumStat := lastNumStat;
      getQueue, putQueue := [], [];
      gets, puts := [], [];
    }

    /** `add_cache_level` (lines 196-203): the level becomes the front when there is
        none, and is otherwise linked behind the last level. */
    method AddCacheLevel(level: CacheLevel<K, V>)
      requires Valid()
      requires level.next == null && level !in levels
      requires level.cache.Valid() && level.cache.Repr() !! Reprs(levels)
      modifies this`front, this`levels, levels
      ensures Valid()
      ensures levels == old(levels) + [level]
      ensures front == if old(front) == null then level else old(front)
      ensures Views(levels) == old(Views(levels)) + [level.cache.View()]
    {
      if front == null {
        ghost var all := levels + [level];
        assert all == [level];
        AppendLevel(levels, level);
        NotInReprs(all, this);
        ReprsAllocated(all);
        front := level;
        levels := all;
        return;
      }
      ReprsAllocated(levels);
      var last := Last();
      Link(last, level);
    }

    /** The walk along the `next` links of lines 200-202: it ends at the last level. */
    method Last() returns (last: CacheLevel<K, V>)
      requires Valid() && front != null
      ensures last == levels[|levels| - 1]
    {
      last := front;
      ghost var i := 0;
      while last.next != null
        invariant 0 <= i < |levels| && last == levels[i]
        decreases |levels| - i
      {
        last := last.next;
        i := i + 1;
      }
      LinkedEnd(levels, i);
    }

    /** `current.next = cache_level` (line 203) on the last level. */
    method Link(last: CacheLevel<K, V>, level: CacheLevel<K, V>)
      requires Valid() && front != null && last == levels[|levels| - 1]
      requires level.next == null && level !in levels
      requires level.cache.Valid() && level.cache.Repr() !! Reprs(levels)
      modifies this`levels, last`next
      ensures Valid()
      ensures levels == old(levels) + [level]
      ensures Views(levels) == old(Views(levels)) + [level.cache.View()]
    {
      ghost var ls := levels;
      ghost var all := ls + [level];
      AppendTail(ls, level);
      AppendLevel(ls, level);
      LinkedDistinct(ls);
      NoLevelInReprs(all);
      NotInReprs(all, this);
      ReprsAllocated(all);
      assert last !in Reprs(all);
      last.next := level;
      LinkedExtended(ls, level);
      levels := all;
      ReprsKept(all);
    }

    /** `MultilevelCache.get` (lines 204-207): the front level answers and its
        response is kept; without a front level the read fails (`AttributeError`). */
    method Get(key: K) returns (r: Result<Value<V>>)
      requires Valid()
      modifies this`getQueue, this`gets, Reprs(levels)
      ensures Valid()
      ensures front == null ==> r == Err(NoLevel)
      ensures front != null ==> (r, Views(levels)) == ReadThrough.Get(old(Views(levels)), key)
      ensures gets == if r.Ok? then old(gets) + [ReadResponse(r.value)] else old(gets)
    {
      if front == null {
        return Err(NoLevel);
      }
      r := GetFront(key);
      if r.Ok? {
        RecordGet(ReadResponse(r.value));
      }
    }

    /** `self.front.get(key)` (line 205). */
    method GetFront(key: K) returns (r: Result<Value<V>>)
      requires Valid() && front != null
      modifies Reprs(levels)
      ensures Valid() && gets == old(gets)
      ensures (r, Views(levels)) == ReadThrough.Get(old(Views(levels)), key)
    {
      NoLevelInReprs(levels);
      ReprsAllocated(levels);
      NotInReprs(levels, this);
      r := front.Get(key, levels);
      LinkedKept(levels);
    }

    /** `get_queue.appendleft` (line 206). */
    method RecordGet(response: Response<V>)
      requires Valid()
      modifies this`getQueue, this`gets
      ensures Valid() && gets == old(gets) + [response]
      ensures Views(levels) == old(Views(levels))
    {
      NotInReprs(levels, this);
      ReprsAllocated(levels);
      AppendLeftKeepsRecent(gets, response, lastNumStat);
      getQueue := AppendLeft(getQueue, response, lastNumStat);
      gets := gets + [response];
    }

    /** `MultilevelCache.put` (lines 209-211): the write goes through the front level
        and its response is kept; without a front level it fails. */
    method Put(key: K, value: Value<V>) returns (r: Outcome)
      requires Valid() && Chain.Clear(Views(levels), key)
      modifies this`putQueue, this`puts, Reprs(levels)
      ensures Valid()
      ensures front == null ==> r == Fail(NoLevel)
      ensures front != null ==> (r, Views(levels)) == Chain.Put(old(Views(levels)), key, value)
      ensures puts == if r.Done? then old(puts) + [WriteResponse] else old(puts)
    {
      if front == null {
        return Fail(NoLevel);
      }
      r := PutFront(key, value);
      if r.Done? {
        RecordPut(WriteResponse);
      }
    }

    /** `self.front.put(key, value)` (line 210). */
    method PutFront(key: K, value: Value<V>) returns (r: Outcome)
      requires Valid() && front != null && Chain.Clear(Views(levels), key)
      modifies Reprs(levels)
      ensures Valid() && puts == old(puts)
      ensures (r, Views(levels)) == Chain.Put(old(Views(levels)), key, value)
    {
      NoLevelInReprs(levels);
      ReprsAllocated(levels);
      NotInReprs(levels, this);
      r := front.Put(key, value, levels);
      LinkedKept(levels);
    }

    /** `put_queue.appendleft` (line 211). */
    method RecordPut(response: Response<V>)
      requires Valid()
      modifies this`putQueue, this`puts
      ensures Valid() && puts == old(puts) + [response]
      ensures Views(levels) == old(Views(levels))
    {
      NotInReprs(levels, this);
      ReprsAllocated(levels);
      AppendLeftKeepsRecent(puts, response, lastNumStat);
      putQueue := AppendLeft(putQueue, response, lastNumStat);
      puts := puts + [response];
    }
  }
}
