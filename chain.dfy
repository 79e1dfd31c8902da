/** A chain of cache levels (`CacheLevel`, main.py:155-185) seen as a value: the
    tiers of its caches from the front level to the last. Reads go down the chain
    until some level holds the key and fill the levels in front on the way back;
    writes go through to every level. `Get` is the read that hands the value found
    back up the chain; the source's own read, which hands back response objects,
    is `ReadThrough.Get`. */
module Chain {
  import opened Wrappers
  import Tiers

  type Tier<K, V> = Tiers.Tier<K, V>

  /** Every level is a valid tier. */
  ghost predicate AllValid<K, V>(levels: seq<Tier<K, V>>) {
    forall i {:trigger Tiers.TierValid(levels[i])} :: 0 <= i < |levels| ==> Tiers.TierValid(levels[i])
  }

  /** No level has capacity 0 (a level of capacity 0 fails every `put`). */
  predicate HasRoom<K, V>(levels: seq<Tier<K, V>>) {
    forall i :: 0 <= i < |levels| ==> levels[i].capacity != Some(0)
  }

  /** The first level holding `key`, if any. */
  function FirstHolder<K, V>(levels: seq<Tier<K, V>>, key: K): (j: Option<nat>)
    ensures j.Some? ==> j.value < |levels| && key in levels[j.value].db
    ensures j.Some? ==> forall i :: 0 <= i < j.value ==> key !in levels[i].db
    ensures j.None? ==> forall i :: 0 <= i < |levels| ==> key !in levels[i].db
  {
    if levels == [] then None
    else if key in levels[0].db then Some(0)
    else
      var j := FirstHolder(levels[1..], key);
      if j.None? then None
      else
        assert forall i :: 1 <= i < j.value + 1 ==> levels[i] == levels[1..][i - 1];
        Some(j.value + 1)
  }

  /** `CacheLevel.get` (lines 161-176) with the backfill corrected: the front level's
      cache answers, or, when it raises `KeyError`, the rest of the chain is asked
      (the `KeyError` propagating from the last level) and the value it finds, not
      its response object as line 174 stores, is put into the front level's cache,
      whose failure propagates too. */
  function Get<K, V>(levels: seq<Tier<K, V>>, key: K): (r: (Result<V>, seq<Tier<K, V>>))
    requires levels != []
    ensures |r.1| == |levels|
    decreases |levels|
  {
    var t := levels[0];
    if key in t.db then (Ok(t.db[key]), levels)
    else if |levels| == 1 then (Err(NotFound), levels)
    else
      var (v, rest) := Get(levels[1..], key);
      if v.Err? then (v, [t] + rest)
      else
        var (o, t') := Tiers.Put(t, key, v.value);
        (if o.Fail? then Err(o.error) else v, [t'] + rest)
  }

  /** `CacheLevel.put` (lines 178-185): the front level's cache stores the pair, then
      the rest of the chain does; a failing cache stops the write. */
  function Put<K, V>(levels: seq<Tier<K, V>>, key: K, value: V): (r: (Outcome, seq<Tier<K, V>>))
    ensures |r.1| == |levels|
  {
    if levels == [] then (Done, [])
    else
      var (o, t') := Tiers.Put(levels[0], key, value);
      if o.Fail? then (o, [t'] + levels[1..])
      else
        var (o', rest) := Put(levels[1..], key, value);
        (o', [t'] + rest)
  }

  lemma AllValidTail<K, V>(levels: seq<Tier<K, V>>)
    requires AllValid(levels) && levels != []
    ensures Tiers.TierValid(levels[0]) && AllValid(levels[1..])
  {
    assert forall i :: 0 <= i < |levels| - 1 ==> levels[1..][i] == levels[i + 1];
  }

  lemma AllValidCons<K, V>(t: Tier<K, V>, levels: seq<Tier<K, V>>)
    requires Tiers.TierValid(t) && AllValid(levels)
    ensures AllValid([t] + levels)
  {
    assert forall i :: 1 <= i <= |levels| ==> ([t] + levels)[i] == levels[i - 1];
  }

  /** Reads keep every level valid. */
  lemma {:induction false} GetKeepsValid<K, V>(levels: seq<Tier<K, V>>, key: K)
    requires levels != [] && AllValid(levels)
    ensures AllValid(Get(levels, key).1)
    decreases |levels|
  {
    AllValidTail(levels);
    if key !in levels[0].db && |levels| > 1 {
      GetKeepsValid(levels[1..], key);
      var (v, rest) := Get(levels[1..], key);
      if v.Err? {
        AllValidCons(levels[0], rest);
      } else {
        Tiers.PutKeepsValid(levels[0], key, v.value);
        AllValidCons(Tiers.Put(levels[0], key, v.value).1, rest);
      }
    }
  }

  /** A read answers with the value of the first level holding the key; it reports
      `KeyError` exactly when no level holds it, and otherwise fails only when a
      level in front of the holder has capacity 0. */
  lemma {:induction false} GetFindsFirstHolder<K, V>(levels: seq<Tier<K, V>>, key: K)
    requires levels != [] && AllValid(levels)
    ensures var (r, _) := Get(levels, key);
      && (r == Err(NotFound) <==> FirstHolder(levels, key).None?)
      && (r.Ok? ==> FirstHolder(levels, key).Some? && r.value == levels[FirstHolder(levels, key).value].db[key])
      && (r.Err? && FirstHolder(levels, key).Some? ==>
            r.error == PolicyEmpty && !RoomBefore(levels, FirstHolder(levels, key).value))
    decreases |levels|
  {
    AllValidTail(levels);
    var t := levels[0];
    if key !in t.db && |levels| > 1 {
      GetFindsFirstHolder(levels[1..], key);
      var (v, rest) := Get(levels[1..], key);
      if v.Ok? {
        Tiers.PutFailsOnlyWithoutRoom(t, key, v.value);
      }
    }
  }

  /** No level in front of position `j` has capacity 0. */
  predicate RoomBefore<K, V>(levels: seq<Tier<K, V>>, j: nat) {
    forall i :: 0 <= i < j && i < |levels| ==> levels[i].capacity != Some(0)
  }

  /** The key is the most recent key of the tier. */
  predicate MostRecent<K, V>(t: Tier<K, V>, key: K) {
    t.order != [] && t.order[0] == key
  }

  /** When every level in front of the holder has room, a read succeeds and leaves
      the key, with the value found, as the most recent key of every level in front
      of the holder. */
  lemma {:induction false} GetFillsFrontLevels<K, V>(levels: seq<Tier<K, V>>, key: K, j: nat)
    requires AllValid(levels) && FirstHolder(levels, key) == Some(j) && RoomBefore(levels, j)
    ensures var (r, levels') := Get(levels, key);
      && r == Ok(levels[j].db[key])
      && (forall i :: 0 <= i <= j ==> Tiers.Lookup(levels'[i], key) == r)
      && (forall i :: 0 <= i < j ==> MostRecent(levels'[i], key))
    decreases |levels|
  {
    if j > 0 {
      var t, tail := levels[0], levels[1..];
      assert AllValid(tail) && FirstHolder(tail, key) == Some(j - 1) && RoomBefore(tail, j - 1) by {
        AllValidTail(levels);
        RoomBeforeTail(levels, j);
      }
      GetFillsFrontLevels(tail, key, j - 1);
      var (v, rest) := Get(tail, key);
      var t' := Tiers.Put(t, key, v.value).1;
      assert Tiers.Put(t, key, v.value).0 == Done && Tiers.Lookup(t', key) == v && MostRecent(t', key) by {
        AllValidTail(levels);
        RoomBeforeTail(levels, j);
        Tiers.PutFailsOnlyWithoutRoom(t, key, v.value);
        Tiers.PutThenLookup(t, key, v.value);
      }
      var levels' := [t'] + rest;
      assert Get(levels, key) == (v, levels');
      assert tail[j - 1] == levels[j];
      forall i | 0 < i <= j ensures Tiers.Lookup(levels'[i], key) == v && (i < j ==> MostRecent(levels'[i], key)) {
        assert levels'[i] == rest[i - 1];
      }
    }
  }

  /** A read changes no level from the first holder of the key onwards. */
  lemma {:induction false} GetKeepsBackLevels<K, V>(levels: seq<Tier<K, V>>, key: K, j: nat)
    requires FirstHolder(levels, key) == Some(j)
    ensures Get(levels, key).1[j..] == levels[j..]
    decreases |levels|
  {
    if j > 0 {
      var tail := levels[1..];
      assert FirstHolder(tail, key) == Some(j - 1);
      GetKeepsBackLevels(tail, key, j - 1);
      var r := Get(levels, key).1;
      assert r[1..] == Get(tail, key).1;
      assert r[j..] == r[1..][j - 1..];
    }
  }

  lemma RoomBeforeTail<K, V>(levels: seq<Tier<K, V>>, j: nat)
    requires RoomBefore(levels, j) && 0 < j <= |levels|
    ensures levels[0].capacity != Some(0) && RoomBefore(levels[1..], j - 1)
  {
    assert forall i :: 0 <= i < |levels| - 1 ==> levels[1..][i] == levels[i + 1];
  }

  /** A read of a key no level holds changes nothing. */
  lemma {:induction false} GetMissChangesNothing<K, V>(levels: seq<Tier<K, V>>, key: K)
    requires levels != [] && FirstHolder(levels, key).None?
    ensures Get(levels, key) == (Err(NotFound), levels)
    decreases |levels|
  {
    if |levels| > 1 {
      GetMissChangesNothing(levels[1..], key);
      assert [levels[0]] + levels[1..] == levels;
    }
  }

  /** A key found by a read is then held by the front level, so reading it again
      gives the same value and changes nothing. */
  lemma GetTwice<K, V>(levels: seq<Tier<K, V>>, key: K)
    requires levels != [] && AllValid(levels)
    requires Get(levels, key).0.Ok?
    ensures Get(Get(levels, key).1, key) == Get(levels, key)
  {
    var (r, levels') := Get(levels, key);
    if key !in levels[0].db {
      var (v, rest) := Get(levels[1..], key);
      AllValidTail(levels);
      Tiers.PutFailsOnlyWithoutRoom(levels[0], key, v.value);
      Tiers.PutThenLookup(levels[0], key, v.value);
    }
  }

  /** Writes keep every level valid. */
  lemma {:induction false} PutKeepsValid<K, V>(levels: seq<Tier<K, V>>, key: K, value: V)
    requires AllValid(levels)
    ensures AllValid(Put(levels, key, value).1)
    decreases |levels|
  {
    if levels != [] {
      AllValidTail(levels);
      Tiers.PutKeepsValid(levels[0], key, value);
      var (o, t') := Tiers.Put(levels[0], key, value);
      if o.Fail? {
        AllValidCons(t', levels[1..]);
      } else {
        PutKeepsValid(levels[1..], key, value);
        AllValidCons(t', Put(levels[1..], key, value).1);
      }
    }
  }

  /** Write-through: when every level has room, a write succeeds and every level
      then holds the pair, with the key as its most recent key. */
  lemma {:induction false} PutWritesThrough<K, V>(levels: seq<Tier<K, V>>, key: K, value: V)
    requires AllValid(levels) && HasRoom(levels)
    ensures var (r, levels') := Put(levels, key, value);
      && r == Done
      && (forall i :: 0 <= i < |levels| ==> Tiers.Lookup(levels'[i], key) == Ok(value))
      && (forall i :: 0 <= i < |levels| ==> MostRecent(levels'[i], key))
    decreases |levels|
  {
    if levels != [] {
      AllValidTail(levels);
      Tiers.PutFailsOnlyWithoutRoom(levels[0], key, value);
      Tiers.PutThenLookup(levels[0], key, value);
      assert HasRoom(levels[1..]) by {
        assert forall i :: 0 <= i < |levels| - 1 ==> levels[1..][i] == levels[i + 1];
      }
      PutWritesThrough(levels[1..], key, value);
      var rest := Put(levels[1..], key, value).1;
      var levels' := [Tiers.Put(levels[0], key, value).1] + rest;
      assert Put(levels, key, value) == (Done, levels');
      forall i | 0 < i < |levels| ensures Tiers.Lookup(levels'[i], key) == Ok(value) && MostRecent(levels'[i], key) {
        assert levels'[i] == rest[i - 1];
      }
    }
  }

  /** A write fails at the first level of capacity 0, after writing the levels in
      front of it. */
  lemma {:induction false} PutStopsAtFullLevel<K, V>(levels: seq<Tier<K, V>>, key: K, value: V, j: nat)
    requires AllValid(levels) && j < |levels| && levels[j].capacity == Some(0) && RoomBefore(levels, j)
    ensures var (r, levels') := Put(levels, key, value);
      && r == Fail(PolicyEmpty)
      && (forall i :: 0 <= i < j ==> Tiers.Lookup(levels'[i], key) == Ok(value))
    decreases |levels|
  {
    var t, tail := levels[0], levels[1..];
    if j == 0 {
      assert Tiers.Put(t, key, value) == (Fail(PolicyEmpty), t) by {
        AllValidTail(levels);
        Tiers.PutFailsOnlyWithoutRoom(t, key, value);
      }
    } else {
      var t' := Tiers.Put(t, key, value).1;
      assert Tiers.Put(t, key, value).0 == Done && Tiers.Lookup(t', key) == Ok(value) by {
        AllValidTail(levels);
        RoomBeforeTail(levels, j);
        Tiers.PutFailsOnlyWithoutRoom(t, key, value);
        Tiers.PutThenLookup(t, key, value);
      }
      assert AllValid(tail) && RoomBefore(tail, j - 1) && tail[j - 1] == levels[j] by {
        AllValidTail(levels);
        RoomBeforeTail(levels, j);
      }
      PutStopsAtFullLevel(tail, key, value, j - 1);
      var rest := Put(tail, key, value).1;
      var levels' := [t'] + rest;
      assert Put(levels, key, value) == (Fail(PolicyEmpty), levels');
      forall i | 0 < i < j ensures Tiers.Lookup(levels'[i], key) == Ok(value) {
        assert levels'[i] == rest[i - 1];
      }
    }
  }

  /** A level of capacity 0 and every level behind it are left as they were by a
      write. */
  lemma {:induction false} PutKeepsBackLevels<K, V>(levels: seq<Tier<K, V>>, key: K, value: V, j: nat)
    requires j < |levels| && Tiers.TierValid(levels[j]) && levels[j].capacity == Some(0)
    ensures Put(levels, key, value).1[j..] == levels[j..]
    decreases |levels|, 1
  {
    if j == 0 {
      Tiers.PutFailsOnlyWithoutRoom(levels[0], key, value);
      assert [levels[0]] + levels[1..] == levels;
    } else {
      PutKeepsLaterLevels(levels, key, value, j);
    }
  }

  lemma {:induction false} PutKeepsLaterLevels<K, V>(levels: seq<Tier<K, V>>, key: K, value: V, j: nat)
    requires 0 < j < |levels| && Tiers.TierValid(levels[j]) && levels[j].capacity == Some(0)
    ensures Put(levels, key, value).1[j..] == levels[j..]
    decreases |levels|, 0
  {
    var tail := levels[1..];
    var (o, t') := Tiers.Put(levels[0], key, value);
    var rest := if o.Fail? then tail else Put(tail, key, value).1;
    assert Put(levels, key, value).1 == [t'] + rest;
    assert rest[j - 1..] == tail[j - 1..] by {
      if o.Done? {
        assert tail[j - 1] == levels[j];
        PutKeepsBackLevels(tail, key, value, j - 1);
      }
    }
    assert ([t'] + rest)[j..] == rest[j - 1..];
    assert levels[j..] == tail[j - 1..];
  }

  /** A read missing the front level `t` asks the rest of the chain, which answers
      `v` and becomes `rest'`; a missing key leaves `t` as it was. */
  lemma GetStep<K, V>(t: Tier<K, V>, rest: seq<Tier<K, V>>, key: K, v: Result<V>, rest': seq<Tier<K, V>>)
    requires rest != [] && key !in t.db && (v, rest') == Get(rest, key)
    ensures v.Err? ==> Get([t] + rest, key) == (v, [t] + rest')
  {
    assert ([t] + rest)[1..] == rest;
  }

  /** A value `v` found behind the front level `t` is put into `t`, giving outcome
      `o` and tier `t'`; a failing put becomes the read's failure. */
  lemma GetBackfill<K, V>(t: Tier<K, V>, rest: seq<Tier<K, V>>, key: K, v: Result<V>, rest': seq<Tier<K, V>>, o: Outcome, t': Tier<K, V>)
    requires rest != [] && key !in t.db && (v, rest') == Get(rest, key) && v.Ok?
    requires (o, t') == Tiers.Put(t, key, v.value)
    ensures Get([t] + rest, key) == (if o.Fail? then Err(o.error) else v, [t'] + rest')
  {
    assert ([t] + rest)[1..] == rest;
  }

  /** A write into a chain writes its front level `t`, then the rest unless that failed. */
  lemma PutStep<K, V>(t: Tier<K, V>, rest: seq<Tier<K, V>>, key: K, value: V)
    ensures var (o, t') := Tiers.Put(t, key, value);
      Put([t] + rest, key, value) ==
        if o.Fail? then (o, [t'] + rest) else (Put(rest, key, value).0, [t'] + Put(rest, key, value).1)
  {
    assert ([t] + rest)[1..] == rest;
  }

  /** A write through a chain whose levels all have room is read back: the front
      level answers with the value written and nothing changes. */
  lemma PutThenGet<K, V>(levels: seq<Tier<K, V>>, key: K, value: V)
    requires levels != [] && AllValid(levels) && HasRoom(levels)
    ensures var levels' := Put(levels, key, value).1;
      levels' != [] && Get(levels', key) == (Ok(value), levels')
  {
    PutWritesThrough(levels, key, value);
    var levels' := Put(levels, key, value).1;
    assert Tiers.Lookup(levels'[0], key) == Ok(value);
  }

  /** No level's cache would hit the self-loop defect of lines 62-64 when `key` is
      put into it (a full storage evicts first and so never hits it). */
  predicate Clear<K, V>(levels: seq<Tier<K, V>>, key: K) {
    forall i :: 0 <= i < |levels| ==> Tiers.Full(levels[i]) || !Tiers.Defect(levels[i], key)
  }
}
