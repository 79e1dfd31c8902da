/** `CacheLevel` (main.py:155-185): a named cache with a link to the next level.
    A chain of levels is described by the ghost sequence of its levels, front first;
    its caches seen as values are `Views`, and the operations are proved against
    `ReadThrough.Get` and `Chain.Put`. */
module Levels {
  import opened Wrappers
  import opened Caches
  import Tiers
  import Chain
  import Seqs
  import ReadThrough

  type Value<V> = ReadThrough.Value<V>

  class CacheLevel<K(==), V> {
    const name: string
    const cache: Cache<K, Value<V>>
    var next: CacheLevel?<K, V>

    /** Lines 156-159. */
    constructor (name: string, cache: Cache<K, Value<V>>, next: CacheLevel?<K, V>)
      ensures this.name == name && this.cache == cache && this.next == next
    {
      this.name := name;
      this.cache := cache;
      this.next := next;
    }

    /** `CacheLevel.get` (lines 161-176) on the chain `levels` that starts here: the
        cache answers, or the next level is asked (`KeyError` from the last level),
        the response it answers with is put into this level's cache and wrapped in
        a new response. */
    method Get(key: K, ghost levels: seq<CacheLevel<K, V>>) returns (r: Result<Value<V>>)
      requires levels != [] && levels[0] == this && Linked(levels) && Sound(levels)
      modifies Reprs(levels)
      ensures Sound(levels)
      ensures (r, Views(levels)) == ReadThrough.Get(old(Views(levels)), key)
      decreases |levels|, 1
    {
      LinkedTail(levels);
      Split(levels);
      ReprsAllocated(levels);
      r := cache.Get(key);
      if r.Ok? || next == null {
        return;
      }
      r := GetBelow(key, levels);
    }

    /** The `except KeyError` branch of `CacheLevel.get` (lines 168-176) when there is
        a next level: the response it answers with is put into this level's cache,
        and the read answers with that response wrapped. */
    method GetBelow(key: K, ghost levels: seq<CacheLevel<K, V>>) returns (r: Result<Value<V>>)
      requires levels != [] && levels[0] == this && Linked(levels) && Sound(levels)
      requires next != null && key !in cache.storage.db
      modifies Reprs(levels)
      ensures Sound(levels)
      ensures (r, Views(levels)) == ReadThrough.Get(old(Views(levels)), key)
      decreases |levels|, 0
    {
      ghost var t := cache.View();
      ghost var tail := levels[1..];
      ghost var vt := Views(tail);
      LinkedTail(levels);
      assert !Tiers.Defect(t, key) by {
        Split(levels);
        cache.ValidView();
        Tiers.AbsentNotDefect(t, key);
      }
      Frame(levels);
      NoLevelInReprs(tail);
      r := next.Get(key, tail);
      ghost var rest := Views(tail);
      LinkedKept(levels);
      Join(levels);
      if r.Err? {
        ReadThrough.GetStep(t, vt, key, r, rest);
        return;
      }
      var response := ReadThrough.Read(r.value);
      var o := PutHere(key, response, levels);
      ReadThrough.GetBackfill(t, vt, key, r, rest, o, cache.View());
      r := if o.Fail? then Err(o.error) else Ok(response);
    }

    /** `CacheLevel.put` (lines 178-185): this level's cache stores the pair, then the
        next level does; a failing cache stops the write. */
    method Put(key: K, value: Value<V>, ghost levels: seq<CacheLevel<K, V>>) returns (r: Outcome)
      requires levels != [] && levels[0] == this && Linked(levels) && Sound(levels)
      requires Chain.Clear(Views(levels), key)
      modifies Reprs(levels)
      ensures Sound(levels)
      ensures (r, Views(levels)) == Chain.Put(old(Views(levels)), key, value)
      decreases |levels|
    {
      ghost var t := cache.View();
      ghost var tail := levels[1..];
      ghost var vt := Views(tail);
      assert (cache.storage.Full() || !Tiers.Defect(t, key)) && Chain.Clear(vt, key) by {
        Split(levels);
        ClearTail(Views(levels), key);
      }
      LinkedTail(levels);
      r := PutHere(key, value, levels);
      Chain.PutStep(t, vt, key, value);
      if r.Fail? || next == null {
        return;
      }
      LinkedTail(levels);
      Frame(levels);
      r := next.Put(key, value, tail);
      Join(levels);
    }

    /** The `put` into this level's cache (lines 174 and 180), which leaves the
        levels behind this one alone. */
    method PutHere(key: K, value: Value<V>, ghost levels: seq<CacheLevel<K, V>>) returns (r: Outcome)
      requires levels != [] && levels[0] == this && Linked(levels) && Sound(levels)
      requires cache.storage.Full() || !Tiers.Defect(cache.View(), key)
      modifies cache.Repr()
      ensures Linked(levels) && Sound(levels)
      ensures (r, cache.View()) == Tiers.Put(old(cache.View()), key, value)
      ensures Views(levels[1..]) == old(Views(levels[1..]))
      ensures Views(levels) == [cache.View()] + Views(levels[1..])
    {
      Split(levels);
      Frame(levels);
      r := cache.Put(key, value);
      LinkedKept(levels);
      Join(levels);
    }
  }

  /** Each level links to the one after it and the last to none. */
  ghost predicate Linked<K, V>(levels: seq<CacheLevel<K, V>>)
    reads levels
  {
    && levels != []
    && (forall i :: 0 <= i < |levels| - 1 ==> levels[i].next == levels[i + 1])
    && levels[|levels| - 1].next == null
  }

  /** The objects the caches of the levels change. */
  ghost function Reprs<K, V>(levels: seq<CacheLevel<K, V>>): set<object>
    decreases |levels|
  {
    if levels == [] then {} else levels[0].cache.Repr() + Reprs(levels[1..])
  }

  /** The caches of the levels as values, front first. */
  ghost function Views<K, V>(levels: seq<CacheLevel<K, V>>): (r: seq<Tiers.Tier<K, Value<V>>>)
    reads Reprs(levels)
    ensures |r| == |levels|
    decreases |levels|
  {
    if levels == [] then [] else [levels[0].cache.View()] + Views(levels[1..])
  }

  /** Every cache is valid and no two levels' caches share an object. */
  ghost predicate Sound<K, V>(levels: seq<CacheLevel<K, V>>)
    reads Reprs(levels)
    decreases |levels|
  {
    levels != [] ==>
      && levels[0].cache.Valid()
      && levels[0].cache.Repr() !! Reprs(levels[1..])
      && Sound(levels[1..])
  }

  lemma ViewsCons<K, V>(levels: seq<CacheLevel<K, V>>)
    requires levels != []
    ensures Views(levels)[0] == levels[0].cache.View()
    ensures Views(levels)[1..] == Views(levels[1..])
  {
  }

  /** The first level links to the second, and to none exactly when it is the last. */
  lemma LinkedTail<K, V>(levels: seq<CacheLevel<K, V>>)
    requires Linked(levels)
    ensures levels[0].next == null <==> |levels| == 1
    ensures levels[0].next != null ==> levels[0].next == levels[1] && Linked(levels[1..])
  {
    if |levels| > 1 {
      assert levels[0].next == levels[1];
      assert forall i :: 0 <= i < |levels| - 1 ==> levels[1..][i] == levels[i + 1];
    }
  }

  /** A chain of links has no repeated level: a repeat would make a cycle with no
      last level. */
  lemma LinkedDistinct<K, V>(levels: seq<CacheLevel<K, V>>)
    requires Linked(levels)
    ensures forall i, j :: 0 <= i < j < |levels| ==> levels[i] != levels[j]
  {
    forall i, j | 0 <= i < j < |levels| ensures levels[i] != levels[j] {
      LinkedApart(levels, i, j);
    }
  }

  lemma {:induction false} LinkedApart<K, V>(levels: seq<CacheLevel<K, V>>, i: nat, j: nat)
    requires Linked(levels) && i < j < |levels|
    ensures levels[i] != levels[j]
    decreases |levels| - j
  {
    assert levels[i].next == levels[i + 1];
    if j < |levels| - 1 {
      assert levels[j].next == levels[j + 1];
      LinkedApart(levels, i + 1, j + 1);
    }
  }

  /** Only the last level has no next one. */
  lemma LinkedEnd<K, V>(levels: seq<CacheLevel<K, V>>, i: nat)
    requires Linked(levels) && i < |levels|
    ensures levels[i].next == null <==> i == |levels| - 1
  {
    if i < |levels| - 1 {
      assert levels[i].next == levels[i + 1];
    }
  }

  /** A valid cache apart from the chain's caches can be added behind the last
      level. */
  lemma AppendLevel<K, V>(levels: seq<CacheLevel<K, V>>, level: CacheLevel<K, V>)
    requires Sound(levels) && level.cache.Valid() && level.cache.Repr() !! Reprs(levels)
    ensures Reprs(levels + [level]) == Reprs(levels) + level.cache.Repr()
    ensures Sound(levels + [level])
    ensures Views(levels + [level]) == Views(levels) + [level.cache.View()]
  {
    ReprsAppend(levels, level);
    SoundAppend(levels, level);
    ViewsAppend(levels, level);
  }

  lemma {:induction false} ReprsAppend<K, V>(levels: seq<CacheLevel<K, V>>, level: CacheLevel<K, V>)
    ensures Reprs(levels + [level]) == Reprs(levels) + level.cache.Repr()
    decreases |levels|
  {
    Seqs.AppendTail(levels, level);
    if levels != [] {
      ReprsAppend(levels[1..], level);
    }
  }

  lemma {:induction false} ViewsAppend<K, V>(levels: seq<CacheLevel<K, V>>, level: CacheLevel<K, V>)
    ensures Views(levels + [level]) == Views(levels) + [level.cache.View()]
    decreases |levels|
  {
    Seqs.AppendTail(levels, level);
    if levels != [] {
      ViewsAppend(levels[1..], level);
    }
  }

  lemma {:induction false} SoundAppend<K, V>(levels: seq<CacheLevel<K, V>>, level: CacheLevel<K, V>)
    requires Sound(levels) && level.cache.Valid() && level.cache.Repr() !! Reprs(levels)
    ensures Sound(levels + [level])
    decreases |levels|
  {
    Seqs.AppendTail(levels, level);
    if levels != [] {
      var tail := levels[1..];
      Split(levels);
      assert Reprs(levels) == levels[0].cache.Repr() + Reprs(tail);
      SoundAppend(tail, level);
      ReprsAppend(tail, level);
      Join(levels + [level]);
    }
  }

  /** Links do not change when no level does. */
  twostate lemma LinkedKept<K, V>(levels: seq<CacheLevel<K, V>>)
    requires old(Linked(levels)) && unchanged(levels)
    ensures Linked(levels)
  {
  }

  /** A chain extended by linking its last level to a new, unlinked one. */
  twostate lemma LinkedExtended<K, V>(levels: seq<CacheLevel<K, V>>, new level: CacheLevel<K, V>)
    requires old(Linked(levels)) && level.next == null && levels[|levels| - 1].next == level
    requires unchanged(levels[..|levels| - 1])
    ensures Linked(levels + [level])
  {
    var all := levels + [level];
    forall i | 0 <= i < |all| - 1 ensures all[i].next == all[i + 1] {
      if i < |levels| - 1 {
        assert levels[i] in levels[..|levels| - 1];
      }
    }
  }

  /** The caches' objects unchanged, the chain is as sound as it was and its views
      are the same. */
  twostate lemma {:induction false} ReprsKept<K, V>(levels: seq<CacheLevel<K, V>>)
    requires forall o :: o in Reprs(levels) ==> old(allocated(o))
    requires unchanged(Reprs(levels))
    ensures Sound(levels) == old(Sound(levels)) && Views(levels) == old(Views(levels))
    decreases |levels|
  {
    if levels != [] {
      assert Reprs(levels) == levels[0].cache.Repr() + Reprs(levels[1..]);
      ReprsKept(levels[1..]);
    }
  }

  lemma {:induction false} ReprsAllocated<K, V>(levels: seq<CacheLevel<K, V>>)
    ensures forall o :: o in Reprs(levels) ==> allocated(o)
    decreases |levels|
  {
    if levels != [] {
      ReprsAllocated(levels[1..]);
    }
  }

  /** No level is one of the objects of the levels' caches. */
  lemma {:induction false} NoLevelInReprs<K, V>(levels: seq<CacheLevel<K, V>>)
    ensures forall l: CacheLevel<K, V> :: l !in Reprs(levels)
    decreases |levels|
  {
    if levels != [] {
      NoLevelInReprs(levels[1..]);
      forall l: CacheLevel<K, V> ensures l !in levels[0].cache.Repr() {
        NotInRepr(l, levels[0].cache);
      }
    }
  }

  /** A level is none of the objects of a cache. */
  lemma NotInRepr<K, V>(l: CacheLevel<K, V>, c: Cache<K, Value<V>>)
    ensures l !in c.Repr()
  {
  }

  /** The first level's cache, the caches of the rest and the levels themselves are
      allocated and apart, so that each level's operations leave the others alone. */
  lemma Frame<K, V>(levels: seq<CacheLevel<K, V>>)
    requires levels != [] && Sound(levels)
    ensures forall l :: l in levels ==> l !in levels[0].cache.Repr()
    ensures forall o :: o in levels[0].cache.Repr() ==> allocated(o) && o !in Reprs(levels[1..])
    ensures forall o :: o in Reprs(levels[1..]) ==> allocated(o)
    ensures Reprs(levels) == levels[0].cache.Repr() + Reprs(levels[1..])
  {
    forall l | l in levels ensures l !in levels[0].cache.Repr() {
      NotInRepr(l, levels[0].cache);
    }
    ReprsAllocated(levels[1..]);
  }

  /** The first level and the rest, as `Views`, `Reprs` and `Sound` see them. */
  lemma Split<K, V>(levels: seq<CacheLevel<K, V>>)
    requires levels != [] && Sound(levels)
    ensures Views(levels) == [levels[0].cache.View()] + Views(levels[1..])
    ensures Views(levels)[0] == levels[0].cache.View() && Views(levels)[1..] == Views(levels[1..])
    ensures levels[0].cache.Valid() && levels[0].cache.Repr() !! Reprs(levels[1..]) && Sound(levels[1..])
  {
  }

  /** A valid first cache, disjoint from a sound rest, makes a sound chain. */
  lemma Join<K, V>(levels: seq<CacheLevel<K, V>>)
    requires levels != [] && levels[0].cache.Valid()
    requires levels[0].cache.Repr() !! Reprs(levels[1..]) && Sound(levels[1..])
    ensures Sound(levels) && Views(levels) == [levels[0].cache.View()] + Views(levels[1..])
  {
  }

  lemma ClearTail<K, V>(levels: seq<Tiers.Tier<K, V>>, key: K)
    requires levels != [] && Chain.Clear(levels, key)
    ensures Chain.Clear(levels[1..], key)
  {
    assert forall i :: 0 <= i < |levels| - 1 ==> levels[1..][i] == levels[i + 1];
  }
}
