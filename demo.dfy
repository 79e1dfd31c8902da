/** The scenario of the `__main__` block (main.py:214-228) on the chain model, for any
    capacity and any number of levels: empty levels of capacity `c` receive `c + 1`
    writes of distinct keys, then the first key is read. Every level receives every
    write and evicts the first key on the last one, so the read misses on every level
    and raises `KeyError`. The demo itself is the case of three levels of capacity 5
    and the keys `a` to `f`. */
module Demo {
  import opened Wrappers
  import opened Seqs
  import opened Recency
  import Tiers
  import Chain
  import ReadThrough

  /** A cache over an empty `HashMapBasedStorage(c)` and a fresh `LRUKeyAccessPolicy()`. */
  function Empty<K, V>(c: nat): (t: Tiers.Tier<K, V>)
    ensures Tiers.TierValid(t) && t.capacity == Some(c) && t.order == []
  {
    Tiers.Tier(map[], [], Some(c), false)
  }

  /** `n` levels, each with the tier `t`. */
  function Copies<K, V>(t: Tiers.Tier<K, V>, n: nat): (r: seq<Tiers.Tier<K, V>>)
    ensures |r| == n && forall i :: 0 <= i < n ==> r[i] == t
  {
    if n == 0 then [] else [t] + Copies(t, n - 1)
  }

  /** No key is written twice. */
  ghost predicate DistinctKeys<K, V>(writes: seq<(K, V)>) {
    forall i, j :: 0 <= i < j < |writes| ==> writes[i].0 != writes[j].0
  }

  /** `mlcache.put(k, v)` for each write in turn. */
  function PutAll<K, V>(levels: seq<Tiers.Tier<K, V>>, writes: seq<(K, V)>): seq<Tiers.Tier<K, V>>
    decreases |writes|
  {
    if writes == [] then levels
    else PutAll(Chain.Put(levels, writes[0].0, writes[0].1).1, writes[1..])
  }

  /** The same writes into a single tier. */
  function WriteAll<K, V>(t: Tiers.Tier<K, V>, writes: seq<(K, V)>): Tiers.Tier<K, V>
    decreases |writes|
  {
    if writes == [] then t
    else WriteAll(Tiers.Put(t, writes[0].0, writes[0].1).1, writes[1..])
  }

  /** Equal levels stay equal under a write that succeeds on each. */
  lemma {:induction false} WriteCopies<K, V>(t: Tiers.Tier<K, V>, n: nat, key: K, value: V)
    requires Tiers.Put(t, key, value).0 == Done
    ensures Chain.Put(Copies(t, n), key, value) == (Done, Copies(Tiers.Put(t, key, value).1, n))
  {
    if n > 0 {
      Chain.PutStep(t, Copies(t, n - 1), key, value);
      WriteCopies(t, n - 1, key, value);
    }
  }

  /** Equal levels with room receive the same writes and stay equal. */
  lemma {:induction false} CopiesWriteAlike<K, V>(t: Tiers.Tier<K, V>, n: nat, writes: seq<(K, V)>)
    requires Tiers.TierValid(t) && t.capacity.Some? && t.capacity.value > 0
    ensures PutAll(Copies(t, n), writes) == Copies(WriteAll(t, writes), n)
    decreases |writes|
  {
    if writes != [] {
      var (k, v) := writes[0];
      Tiers.PutFailsOnlyWithoutRoom(t, k, v);
      Tiers.PutKeepsValid(t, k, v);
      Tiers.PutEffect(t, k, v);
      WriteCopies(t, n, k, v);
      CopiesWriteAlike(Tiers.Put(t, k, v).1, n, writes[1..]);
    }
  }

  /** `o` is the keys of `writes`, the last written first, in front of `base`. */
  ghost predicate Stacked<K, V>(o: seq<K>, writes: seq<(K, V)>, base: seq<K>) {
    && |o| == |writes| + |base| && o[|writes|..] == base
    && forall i :: 0 <= i < |writes| ==> o[|writes| - 1 - i] == writes[i].0
  }

  lemma StackStep<K, V>(o: seq<K>, writes: seq<(K, V)>, base: seq<K>)
    requires writes != [] && Stacked(o, writes[1..], [writes[0].0] + base)
    ensures Stacked(o, writes, base)
  {
    var rest := writes[1..];
    assert o[|writes|..] == o[|rest|..][1..];
    forall i | 0 < i < |writes| ensures o[|writes| - 1 - i] == writes[i].0 {
      assert rest[i - 1] == writes[i];
    }
  }

  /** A write of a key the tier does not hold, into a tier with room: the key is
      stored and becomes the most recent one. */
  lemma FreshPut<K, V>(t: Tiers.Tier<K, V>, key: K, value: V)
    requires Tiers.TierValid(t) && t.capacity.Some? && |t.order| < t.capacity.value && key !in t.db
    ensures var t' := Tiers.Put(t, key, value).1;
      && Tiers.TierValid(t') && t'.capacity == t.capacity
      && t'.db == t.db[key := value] && t'.order == [key] + t.order
  {
    Tiers.TierSize(t);
    Tiers.PutKeepsValid(t, key, value);
    Tiers.PutEffect(t, key, value);
    TouchAbsent(t.order, key);
  }

  /** Fresh keys written into a tier with room for all of them are all stored and
      stacked in front of its order, the last written first. */
  lemma {:induction false} FillFresh<K, V>(t: Tiers.Tier<K, V>, writes: seq<(K, V)>)
    requires Tiers.TierValid(t) && t.capacity.Some? && |t.order| + |writes| <= t.capacity.value
    requires DistinctKeys(writes) && forall i :: 0 <= i < |writes| ==> writes[i].0 !in t.db
    ensures var w := WriteAll(t, writes);
      && Tiers.TierValid(w) && w.capacity == t.capacity && Stacked(w.order, writes, t.order)
    decreases |writes|
  {
    if writes != [] {
      var (k, v) := writes[0];
      var rest := writes[1..];
      FreshPut(t, k, v);
      var t' := Tiers.Put(t, k, v).1;
      assert forall i :: 0 <= i < |rest| ==> rest[i].0 !in t'.db by {
        assert forall i :: 0 <= i < |rest| ==> rest[i] == writes[i + 1];
      }
      FillFresh(t', rest);
      StackStep(WriteAll(t', rest).order, writes, t.order);
    }
  }

  /** Writing a sequence is writing its first `j` writes, then the others. */
  lemma {:induction false} WriteAllSplit<K, V>(t: Tiers.Tier<K, V>, writes: seq<(K, V)>, j: nat)
    requires j <= |writes|
    ensures WriteAll(t, writes) == WriteAll(WriteAll(t, writes[..j]), writes[j..])
    decreases j
  {
    if j > 0 {
      assert writes[..j][1..] == writes[1..][..j - 1];
      assert writes[j..] == writes[1..][j - 1..];
      WriteAllSplit(Tiers.Put(t, writes[0].0, writes[0].1).1, writes[1..], j - 1);
    }
  }

  /** A valid tier holds every key of its order. */
  lemma StackedHeld<K, V>(t: Tiers.Tier<K, V>, writes: seq<(K, V)>)
    requires Tiers.TierValid(t) && Stacked(t.order, writes, [])
    ensures forall i :: 0 <= i < |writes| ==> writes[i].0 in t.db
  {
    forall i | 0 <= i < |writes| ensures writes[i].0 in t.db {
      assert t.order[|writes| - 1 - i] == writes[i].0;
    }
  }

  /** The first `c` writes of distinct keys fill an empty level of capacity `c`,
      with the first key written as its least recently used key. */
  lemma Filled<K, V>(c: nat, first: seq<(K, V)>)
    requires c > 0 && |first| == c && DistinctKeys(first)
    ensures var t := WriteAll(Empty<K, V>(c), first);
      && Tiers.TierValid(t) && Tiers.Full(t) && t.order != []
      && Last(t.order) == first[0].0
      && forall i :: 0 <= i < c ==> first[i].0 in t.db
  {
    FillFresh(Empty<K, V>(c), first);
    var t := WriteAll(Empty<K, V>(c), first);
    Tiers.TierSize(t);
    StackedHeld(t, first);
  }

  /** In one level, the write beyond the capacity evicts the first key written, the
      least recently used one, and only that key. */
  lemma OneLevel<K, V>(c: nat, writes: seq<(K, V)>)
    requires c > 0 && |writes| == c + 1 && DistinctKeys(writes)
    ensures var w := WriteAll(Empty<K, V>(c), writes);
      && writes[0].0 !in w.db
      && forall i :: 0 < i <= c ==> writes[i].0 in w.db
  {
    var e := Empty<K, V>(c);
    var first := writes[..c];
    Filled(c, first);
    var t := WriteAll(e, first);
    WriteAllSplit(e, writes, c);
    assert writes[c..] == [writes[c]];
    var (k, v) := writes[c];
    assert WriteAll(e, writes) == Tiers.Put(t, k, v).1;
    Tiers.PutEffect(t, k, v);
    var w := Tiers.Put(t, k, v).1;
    assert w.db == (t.db - {writes[0].0})[k := v] by {
      assert first[0] == writes[0];
    }
    assert k != writes[0].0;
    forall i | 0 < i < c ensures writes[i].0 in w.db {
      assert first[i] == writes[i];
      assert writes[i].0 != writes[0].0;
    }
  }

  /** The demo's final `mlcache.get('a')` raises `KeyError`: after `c + 1` writes of
      distinct keys into `n` empty levels of capacity `c`, no level holds the first
      key, every level holds the others, and reading the first key fails with
      `KeyError` and changes nothing. */
  lemma DemoReadOfFirstKeyMisses<K, W>(c: nat, n: nat, writes: seq<(K, ReadThrough.Value<W>)>)
    requires c > 0 && n > 0 && |writes| == c + 1 && DistinctKeys(writes)
    ensures var levels := PutAll(Copies(Empty<K, ReadThrough.Value<W>>(c), n), writes);
      && |levels| == n
      && (forall i :: 0 <= i < n ==> writes[0].0 !in levels[i].db)
      && (forall i, j :: 0 <= i < n && 0 < j <= c ==> writes[j].0 in levels[i].db)
      && ReadThrough.Get(levels, writes[0].0) == (Err(NotFound), levels)
  {
    CopiesWriteAlike(Empty<K, ReadThrough.Value<W>>(c), n, writes);
    OneLevel(c, writes);
    ReadThrough.GetMissChangesNothing(PutAll(Copies(Empty<K, ReadThrough.Value<W>>(c), n), writes), writes[0].0);
  }

  /** The writes of the demo: each of `a` to `f` with its character code. */
  function DemoWrites(): (w: seq<(char, ReadThrough.Value<int>)>)
    ensures |w| == 6 && DistinctKeys(w)
  {
    [('a', ReadThrough.Plain('a' as int)), ('b', ReadThrough.Plain('b' as int)),
     ('c', ReadThrough.Plain('c' as int)), ('d', ReadThrough.Plain('d' as int)),
     ('e', ReadThrough.Plain('e' as int)), ('f', ReadThrough.Plain('f' as int))]
  }

  /** Three levels of capacity 5 after the writes of `a` to `f`: none holds `a`, so
      `mlcache.get('a')` raises `KeyError`. */
  lemma DemoRun()
    ensures var levels := PutAll(Copies(Empty<char, ReadThrough.Value<int>>(5), 3), DemoWrites());
      && |levels| == 3
      && (forall i :: 0 <= i < 3 ==> 'a' !in levels[i].db && 'f' in levels[i].db)
      && ReadThrough.Get(levels, 'a') == (Err(NotFound), levels)
  {
    var w := DemoWrites();
    assert w[0].0 == 'a' && w[5].0 == 'f';
    DemoReadOfFirstKeyMisses(5, 3, w);
  }
}
