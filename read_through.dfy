/** A read down a chain of levels as `CacheLevel.get` (main.py:161-176) performs it.
    On a miss a level asks the next one, puts the response object it receives into
    its own cache and answers with a new response wrapping that object. So a level
    holds either a value a caller put or a response, and a value found `j` levels
    down comes back wrapped `j` times (see `WrapsOncePerLevel`). `Chain.Get` is the
    read that hands on the value itself. */
module ReadThrough {
  import opened Wrappers
  import Tiers
  import Chain

  type Tier<K, V> = Tiers.Tier<K, V>

  /** What a level's cache holds: a value some caller put, or the `ReadResponse` the
      next level answered with. */
  datatype Value<V> = Plain(v: V) | Read(response: Value<V>)

  /** `x` wrapped in `n` responses. */
  function Wrapped<V>(x: Value<V>, n: nat): (r: Value<V>)
    ensures Depth(r) == Depth(x) + n
  {
    if n == 0 then x else Read(Wrapped(x, n - 1))
  }

  /** How many responses wrap a caller's value. */
  function Depth<V>(x: Value<V>): nat {
    match x
    case Plain(_) => 0
    case Read(inner) => Depth(inner) + 1
  }

  /** `CacheLevel.get` on the chain `levels`: the front cache answers with what it
      holds, or, when it raises `KeyError`, the rest of the chain is asked (the
      `KeyError` propagating from the last level); the response `x` it answers with
      is put into the front cache, and the read answers `Read(x)` unless that put
      failed. */
  function Get<K, V>(levels: seq<Tier<K, Value<V>>>, key: K): (r: (Result<Value<V>>, seq<Tier<K, Value<V>>>))
    requires levels != []
    ensures |r.1| == |levels|
    decreases |levels|
  {
    var t := levels[0];
    if key in t.db then (Ok(t.db[key]), levels)
    else if |levels| == 1 then (Err(NotFound), levels)
    else
      var (v, rest) := Get(levels[1..], key);
      if v.Err? then (v, [t] + rest)
      else
        var response := Read(v.value);
        var (o, t') := Tiers.Put(t, key, response);
        (if o.Fail? then Err(o.error) else Ok(response), [t'] + rest)
  }

  /** Reads keep every level valid. */
  lemma {:induction false} GetKeepsValid<K, V>(levels: seq<Tier<K, Value<V>>>, key: K)
    requires levels != [] && Chain.AllValid(levels)
    ensures Chain.AllValid(Get(levels, key).1)
    decreases |levels|
  {
    Chain.AllValidTail(levels);
    if key !in levels[0].db && |levels| > 1 {
      GetKeepsValid(levels[1..], key);
      var (v, rest) := Get(levels[1..], key);
      if v.Err? {
        Chain.AllValidCons(levels[0], rest);
      } else {
        Tiers.PutKeepsValid(levels[0], key, Read(v.value));
        Chain.AllValidCons(Tiers.Put(levels[0], key, Read(v.value)).1, rest);
      }
    }
  }

  /** A read answers with what the first level holding the key holds, wrapped once
      for every level in front of it; it reports `KeyError` exactly when no level
      holds the key, and otherwise fails only when a level in front of the holder
      has capacity 0. */
  lemma {:induction false} GetFindsFirstHolder<K, V>(levels: seq<Tier<K, Value<V>>>, key: K)
    requires levels != [] && Chain.AllValid(levels)
    ensures var (r, _) := Get(levels, key);
      var j := Chain.FirstHolder(levels, key);
      && (r == Err(NotFound) <==> j.None?)
      && (r.Ok? ==> j.Some? && r.value == Wrapped(levels[j.value].db[key], j.value))
      && (r.Err? && j.Some? ==> r.error == PolicyEmpty && !Chain.RoomBefore(levels, j.value))
    decreases |levels|
  {
    Chain.AllValidTail(levels);
    var t := levels[0];
    if key !in t.db && |levels| > 1 {
      var tail := levels[1..];
      GetFindsFirstHolder(tail, key);
      var (v, rest) := Get(tail, key);
      if v.Ok? {
        Tiers.PutFailsOnlyWithoutRoom(t, key, Read(v.value));
        var j := Chain.FirstHolder(tail, key).value;
        assert tail[j] == levels[j + 1];
      }
    }
  }

  /** When every level in front of the holder `j` has room, a read succeeds with the
      holder's value wrapped `j` times, and each level `i` in front of the holder
      then holds it wrapped `j - i` times, as its most recent key. */
  lemma {:induction false} WrapsOncePerLevel<K, V>(levels: seq<Tier<K, Value<V>>>, key: K, j: nat)
    requires Chain.AllValid(levels) && Chain.FirstHolder(levels, key) == Some(j)
    requires Chain.RoomBefore(levels, j)
    ensures var (r, levels') := Get(levels, key);
      && r == Ok(Wrapped(levels[j].db[key], j))
      && (forall i :: 0 <= i <= j ==> Tiers.Lookup(levels'[i], key) == Ok(Wrapped(levels[j].db[key], j - i)))
      && (forall i :: 0 <= i < j ==> Chain.MostRecent(levels'[i], key))
    decreases |levels|
  {
    if j > 0 {
      var t, tail := levels[0], levels[1..];
      var x := levels[j].db[key];
      assert Chain.AllValid(tail) && Chain.FirstHolder(tail, key) == Some(j - 1)
        && Chain.RoomBefore(tail, j - 1) && tail[j - 1] == levels[j] by {
        Chain.AllValidTail(levels);
        Chain.RoomBeforeTail(levels, j);
      }
      WrapsOncePerLevel(tail, key, j - 1);
      var (v, rest) := Get(tail, key);
      var response := Read(v.value);
      assert response == Wrapped(x, j);
      var t' := Tiers.Put(t, key, response).1;
      assert Tiers.TierValid(t) && t.capacity != Some(0) by {
        Chain.AllValidTail(levels);
        Chain.RoomBeforeTail(levels, j);
      }
      FrontPut(t, key, response);
      assert Get(levels, key) == (Ok(response), [t'] + rest);
      Shifted(t', rest, key, x, j);
    }
  }

  /** A level holding `x` wrapped `j` times, as its most recent key, in front of
      levels holding it wrapped one time less for each level further back. */
  lemma Shifted<K, V>(t: Tier<K, Value<V>>, rest: seq<Tier<K, Value<V>>>, key: K, x: Value<V>, j: nat)
    requires 0 < j <= |rest| && Tiers.Lookup(t, key) == Ok(Wrapped(x, j)) && Chain.MostRecent(t, key)
    requires forall i :: 0 <= i <= j - 1 ==> Tiers.Lookup(rest[i], key) == Ok(Wrapped(x, j - 1 - i))
    requires forall i :: 0 <= i < j - 1 ==> Chain.MostRecent(rest[i], key)
    ensures forall i :: 0 <= i <= j ==> Tiers.Lookup(([t] + rest)[i], key) == Ok(Wrapped(x, j - i))
    ensures forall i :: 0 <= i < j ==> Chain.MostRecent(([t] + rest)[i], key)
  {
    forall i | 0 < i <= j
      ensures Tiers.Lookup(([t] + rest)[i], key) == Ok(Wrapped(x, j - i))
      ensures i < j ==> Chain.MostRecent(([t] + rest)[i], key)
    {
      assert ([t] + rest)[i] == rest[i - 1] && j - 1 - (i - 1) == j - i;
    }
  }

  /** A put into a valid level with room succeeds and leaves the key most recent. */
  lemma FrontPut<K, V>(t: Tier<K, Value<V>>, key: K, x: Value<V>)
    requires Tiers.TierValid(t) && t.capacity != Some(0)
    ensures var (o, t') := Tiers.Put(t, key, x);
      o == Done && Tiers.Lookup(t', key) == Ok(x) && Chain.MostRecent(t', key)
  {
    Tiers.PutFailsOnlyWithoutRoom(t, key, x);
    Tiers.PutThenLookup(t, key, x);
  }

  /** Whenever the holder is behind the front level and every level in front of it
      has room, this read and `Chain.Get` both succeed but answer differently: this
      one with `Chain.Get`'s answer wrapped once per level in front of the holder. */
  lemma AnswersDiffer<K, V>(levels: seq<Tier<K, Value<V>>>, key: K, j: nat)
    requires Chain.AllValid(levels) && Chain.FirstHolder(levels, key) == Some(j)
    requires Chain.RoomBefore(levels, j) && j > 0
    ensures Chain.Get(levels, key).0.Ok? && Get(levels, key).0.Ok?
    ensures Get(levels, key).0.value == Wrapped(Chain.Get(levels, key).0.value, j)
    ensures Get(levels, key).0 != Chain.Get(levels, key).0
  {
    WrapsOncePerLevel(levels, key, j);
    Chain.GetFillsFrontLevels(levels, key, j);
    var x := levels[j].db[key];
    assert Depth(Wrapped(x, j)) != Depth(x);
  }

  /** Two levels of capacity 1, only the second holding `k`: `Chain.Get` answers with
      the value put, this read with a response wrapping it. */
  lemma SecondLevelExample<K, V>(k: K, x: V)
    ensures var levels := [Tiers.Tier(map[], [], Some(1), false), Tiers.Tier(map[k := Plain(x)], [k], Some(1), false)];
      && Chain.Get(levels, k).0 == Ok(Plain(x))
      && Get(levels, k).0 == Ok(Read(Plain(x)))
  {
    var levels := [Tiers.Tier(map[], [], Some(1), false), Tiers.Tier(map[k := Plain(x)], [k], Some(1), false)];
    assert Chain.AllValid(levels) && Chain.FirstHolder(levels, k) == Some(1);
    AnswersDiffer(levels, k, 1);
  }

  /** A read served by the front level answers alike in both models. */
  lemma FrontHitAgrees<K, V>(levels: seq<Tier<K, Value<V>>>, key: K)
    requires levels != [] && key in levels[0].db
    ensures Get(levels, key) == Chain.Get(levels, key) == (Ok(levels[0].db[key]), levels)
  {
  }

  /** A read of a key no level holds changes nothing. */
  lemma {:induction false} GetMissChangesNothing<K, V>(levels: seq<Tier<K, Value<V>>>, key: K)
    requires levels != [] && Chain.FirstHolder(levels, key).None?
    ensures Get(levels, key) == (Err(NotFound), levels)
    decreases |levels|
  {
    if |levels| > 1 {
      GetMissChangesNothing(levels[1..], key);
      assert [levels[0]] + levels[1..] == levels;
    }
  }

  /** A read changes no level from the first holder of the key onwards. */
  lemma {:induction false} GetKeepsBackLevels<K, V>(levels: seq<Tier<K, Value<V>>>, key: K, j: nat)
    requires Chain.FirstHolder(levels, key) == Some(j)
    ensures Get(levels, key).1[j..] == levels[j..]
    decreases |levels|
  {
    if j > 0 {
      var tail := levels[1..];
      assert Chain.FirstHolder(tail, key) == Some(j - 1);
      GetKeepsBackLevels(tail, key, j - 1);
      var r := Get(levels, key).1;
      assert r[1..] == Get(tail, key).1;
      assert r[j..] == r[1..][j - 1..];
    }
  }

  /** A key found by a read is then held by the front level, so reading it again
      gives the same answer and changes nothing. */
  lemma GetTwice<K, V>(levels: seq<Tier<K, Value<V>>>, key: K)
    requires levels != [] && Chain.AllValid(levels)
    requires Get(levels, key).0.Ok?
    ensures Get(Get(levels, key).1, key) == Get(levels, key)
  {
    if key !in levels[0].db {
      var (v, rest) := Get(levels[1..], key);
      Chain.AllValidTail(levels);
      Tiers.PutFailsOnlyWithoutRoom(levels[0], key, Read(v.value));
      Tiers.PutThenLookup(levels[0], key, Read(v.value));
    }
  }

  /** A read missing the front level `t` asks the rest of the chain, which answers
      `v` and becomes `rest'`; a missing key leaves `t` as it was. */
  lemma GetStep<K, V>(t: Tier<K, Value<V>>, rest: seq<Tier<K, Value<V>>>, key: K,
                      v: Result<Value<V>>, rest': seq<Tier<K, Value<V>>>)
    requires rest != [] && key !in t.db && (v, rest') == Get(rest, key)
    ensures v.Err? ==> Get([t] + rest, key) == (v, [t] + rest')
  {
    assert ([t] + rest)[1..] == rest;
  }

  /** A response `v` from behind the front level `t` is put into `t`, wrapped, giving
      outcome `o` and tier `t'`; a failing put becomes the read's failure. */
  lemma GetBackfill<K, V>(t: Tier<K, Value<V>>, rest: seq<Tier<K, Value<V>>>, key: K,
                          v: Result<Value<V>>, rest': seq<Tier<K, Value<V>>>,
                          o: Outcome, t': Tier<K, Value<V>>)
    requires rest != [] && key !in t.db && (v, rest') == Get(rest, key) && v.Ok?
    requires (o, t') == Tiers.Put(t, key, Read(v.value))
    ensures Get([t] + rest, key) == (if o.Fail? then Err(o.error) else Ok(Read(v.value)), [t'] + rest')
  {
    assert ([t] + rest)[1..] == rest;
  }

  /** A write through a chain whose levels all have room is read back: the front
      level answers with the value written, unwrapped, and nothing changes. */
  lemma PutThenGet<K, V>(levels: seq<Tier<K, Value<V>>>, key: K, value: Value<V>)
    requires levels != [] && Chain.AllValid(levels) && Chain.HasRoom(levels)
    ensures var levels' := Chain.Put(levels, key, value).1;
      levels' != [] && Get(levels', key) == (Ok(value), levels')
  {
    Chain.PutWritesThrough(levels, key, value);
    var levels' := Chain.Put(levels, key, value).1;
    assert Tiers.Lookup(levels'[0], key) == Ok(value);
  }
}
