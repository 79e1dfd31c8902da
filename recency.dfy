/** The abstract recency order kept by the LRU policy: a sequence of keys from the
    most recently used (position 0) to the least recently used (the last position).
    `key_accessed` moves or inserts a key at the front; `key_to_remove` takes the last. */
module Recency {
  import opened Seqs

  /** The order after `key` is reported as accessed: `key` first, every other key
      kept in its previous order. */
  function Touch<K(==)>(order: seq<K>, key: K): (r: seq<K>)
    ensures r != [] && r[0] == key
    ensures forall k :: k in r ==> k in order || k == key
    ensures forall k :: k in order ==> k in r
  {
    [key] + Remove(order, key)
  }

  /** Position of `key` in `order` (its first occurrence). */
  function IndexOf<K(==)>(order: seq<K>, key: K): (i: nat)
    requires key in order
    ensures i < |order| && order[i] == key && key !in order[..i]
  {
    if order[0] == key then 0
    else
      assert key in order[1..];
      var j := IndexOf(order[1..], key);
      assert order[..j + 1] == [order[0]] + order[1..][..j];
      j + 1
  }

  /** `a` was used more recently than `b`: both are tracked and `a` comes first. */
  ghost predicate MoreRecent<K>(order: seq<K>, a: K, b: K) {
    a in order && b in order && IndexOf(order, a) < IndexOf(order, b)
  }

  /** The keys `key_accessed` is called with, one after the other. */
  function AccessAll<K(==)>(order: seq<K>, keys: seq<K>): seq<K>
    decreases |keys|
  {
    if keys == [] then order else AccessAll(Touch(order, keys[0]), keys[1..])
  }

  /** The keys successive `key_to_remove` calls return until the order is empty. */
  function Drain<K>(order: seq<K>): (victims: seq<K>)
    ensures |victims| == |order|
  {
    if order == [] then [] else [Last(order)] + Drain(order[..|order| - 1])
  }

  lemma {:induction false} IndexOfDistinct<K>(order: seq<K>, i: nat)
    requires Distinct(order) && i < |order|
    ensures IndexOf(order, order[i]) == i
  {
  }

  lemma {:induction false} RemoveKeepsDistinct<K>(order: seq<K>, key: K)
    requires Distinct(order)
    ensures Distinct(Remove(order, key))
  {
    if order != [] {
      DistinctTail(order);
      RemoveKeepsDistinct(order[1..], key);
      if order[0] != key {
        assert order[0] !in order[1..];
        assert order[0] !in Remove(order[1..], key);
      }
    }
  }

  /** Accessing keeps every key tracked once. */
  lemma TouchKeepsDistinct<K>(order: seq<K>, key: K)
    requires Distinct(order)
    ensures Distinct(Touch(order, key))
  {
    RemoveKeepsDistinct(order, key);
    var rest := Remove(order, key);
    assert Touch(order, key) == [key] + rest;
    assert key !in rest;
  }

  /** Accessing an untracked key puts it in front of all the others. */
  lemma TouchAbsent<K>(order: seq<K>, key: K)
    requires key !in order
    ensures Touch(order, key) == [key] + order
  {
    RemoveAbsent(order, key);
  }

  /** Touching a key adds it to the set of tracked keys and removes none. */
  lemma TouchKeys<K>(order: seq<K>, key: K)
    ensures (set k | k in Touch(order, key)) == (set k | k in order) + {key}
  {
  }

  /** Reporting an access twice in a row is the same as reporting it once:
      the second call finds the key already at the front. */
  lemma TouchTwice<K>(order: seq<K>, key: K)
    ensures Touch(Touch(order, key), key) == Touch(order, key)
  {
    RemoveAbsent(Remove(order, key), key);
  }

  /** After the entry at position `p` moves to the front, position `i` holds the
      entry that was at `FromFront(p, i)`. */
  function FromFront(p: nat, i: nat): nat {
    if i == 0 then p else if i <= p then i - 1 else i
  }

  lemma MoveToFrontAt<T>(s: seq<T>, p: nat, i: nat)
    requires Distinct(s) && p < |s| && i < |s|
    ensures |Touch(s, s[p])| == |s| && Touch(s, s[p])[i] == s[FromFront(p, i)]
  {
    RemoveAt(s, p);
    assert Touch(s, s[p]) == [s[p]] + s[..p] + s[p + 1..];
  }

  /** Where the key at position `i` of `order` sits after `key` is accessed. */
  ghost function Shifted<K>(order: seq<K>, key: K, i: nat): nat
    requires i < |order|
  {
    if key in order && IndexOf(order, key) < i then i else i + 1
  }

  lemma TouchShift<K>(order: seq<K>, key: K, i: nat)
    requires Distinct(order) && i < |order| && order[i] != key
    ensures Shifted(order, key, i) < |Touch(order, key)|
    ensures Touch(order, key)[Shifted(order, key, i)] == order[i]
  {
    if key in order {
      var p := IndexOf(order, key);
      RemoveAt(order, p);
      assert Touch(order, key) == [key] + order[..p] + order[p + 1..];
    } else {
      RemoveAbsent(order, key);
    }
  }

  /** The accessed key becomes the most recently used, and every other pair of
      tracked keys keeps its relative recency. */
  lemma TouchOrder<K>(order: seq<K>, key: K, a: K, b: K)
    requires Distinct(order)
    requires a != key && b != key && a in order && b in order
    ensures MoreRecent(Touch(order, key), key, a)
    ensures MoreRecent(Touch(order, key), a, b) <==> MoreRecent(order, a, b)
  {
    var r := Touch(order, key);
    TouchKeepsDistinct(order, key);
    var ia, ib := IndexOf(order, a), IndexOf(order, b);
    TouchShift(order, key, ia);
    TouchShift(order, key, ib);
    IndexOfDistinct(r, Shifted(order, key, ia));
    IndexOfDistinct(r, Shifted(order, key, ib));
    IndexOfDistinct(r, 0);
  }

  /** The victim `key_to_remove` picks is the least recently used tracked key. */
  lemma VictimIsLeastRecent<K>(order: seq<K>, b: K)
    requires Distinct(order) && order != []
    requires b in order && b != Last(order)
    ensures MoreRecent(order, b, Last(order))
  {
    IndexOfDistinct(order, |order| - 1);
  }

  /** Fresh keys accessed once each are stacked in front in reverse order. */
  lemma {:induction false} AccessFreshKeys<K>(order: seq<K>, keys: seq<K>)
    requires Distinct(keys)
    requires forall k :: k in keys ==> k !in order
    ensures AccessAll(order, keys) == Reverse(keys) + order
    decreases |keys|
  {
    if keys != [] {
      RemoveAbsent(order, keys[0]);
      DistinctTail(keys);
      assert keys[0] !in keys[1..];
      AccessFreshKeys([keys[0]] + order, keys[1..]);
    }
  }

  /** Draining a reversed sequence gives it back in its original order. */
  lemma {:induction false} DrainReverse<K>(keys: seq<K>)
    ensures Drain(Reverse(keys)) == keys
  {
    if keys != [] {
      assert Reverse(keys)[..|keys| - 1] == Reverse(keys[1..]);
      DrainReverse(keys[1..]);
    }
  }

  /** Distinct keys, each accessed once starting from an empty policy, are handed
      out as victims oldest first. */
  lemma OnceAccessedKeysLeaveOldestFirst<K>(keys: seq<K>)
    requires Distinct(keys)
    ensures Drain(AccessAll([], keys)) == keys
  {
    AccessFreshKeys([], keys);
    assert Reverse(keys) + [] == Reverse(keys);
    DrainReverse(keys);
  }
}
