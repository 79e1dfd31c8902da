/** What the LRU policy's dictionary, its recency list and its abstract order must
    agree on, and how `key_accessed` and `key_to_remove` keep them agreeing. */
module LruTracking {
  import opened Wrappers
  import opened Seqs
  import opened Recency
  import opened RecencyList

  /** `order[i]` is the key of node `handles[i]`, no key occurs twice, and `hashmap`
      maps exactly the keys of `order` to their nodes. */
  ghost predicate Keyed<K>(nodes: seq<Node<K>>, hashmap: map<K, nat>, order: seq<K>, handles: seq<nat>) {
    && |order| == |handles|
    && Distinct(order)
    && (forall i :: 0 <= i < |order| ==>
          order[i] in hashmap && hashmap[order[i]] == handles[i] && handles[i] < |nodes| && nodes[handles[i]].val == order[i])
    && (forall k :: k in hashmap ==> k in order)
  }

  /** The list state `s` holds the nodes `handles` in recency order, and the keys of
      those nodes, in that order, are `order`. */
  ghost predicate Tracks<K>(s: ListState<K>, hashmap: map<K, nat>, order: seq<K>, handles: seq<nat>) {
    Represents(s, handles) && Keyed(s.nodes, hashmap, order, handles)
  }

  lemma KeyedSameKeys<K>(nodes: seq<Node<K>>, nodes': seq<Node<K>>, hashmap: map<K, nat>, order: seq<K>, handles: seq<nat>)
    requires Keyed(nodes, hashmap, order, handles)
    requires |nodes'| == |nodes| && forall i :: 0 <= i < |nodes| ==> nodes'[i].val == nodes[i].val
    ensures Keyed(nodes', hashmap, order, handles)
  {
  }

  /** Accessing `key` hits the defect of lines 62-64. */
  ghost predicate Defect<K>(s: ListState<K>, order: seq<K>, key: K) {
    TailLooped(s) && |order| >= 2 && key == Last(order)
  }

  lemma TrackedKeys<K>(s: ListState<K>, hashmap: map<K, nat>, order: seq<K>, handles: seq<nat>)
    requires Tracks(s, hashmap, order, handles)
    ensures hashmap.Keys == set k | k in order
    ensures TailLooped(s) ==> order != []
  {
  }

  /** The node of a tracked key is the self-looped tail exactly in the defect case. */
  lemma SelfLoopedTailIsDefect<K>(s: ListState<K>, hashmap: map<K, nat>, order: seq<K>, handles: seq<nat>, p: nat)
    requires Tracks(s, hashmap, order, handles) && p < |order|
    ensures SelfLoopedTail(s, handles[p]) <==> Defect(s, order, order[p])
  {
    if p != |handles| - 1 {
      assert handles[p] != handles[|handles| - 1];
      assert order[p] != order[|order| - 1];
    }
    if |handles| >= 2 {
      assert handles[0] != handles[|handles| - 1];
    }
  }

  /** Distinct keys sit in distinct nodes. */
  lemma KeyedHandlesDistinct<K>(nodes: seq<Node<K>>, hashmap: map<K, nat>, order: seq<K>, handles: seq<nat>)
    requires Keyed(nodes, hashmap, order, handles)
    ensures Distinct(handles)
  {
    forall i, j | 0 <= i < j < |handles| ensures handles[i] != handles[j] {
      assert order[i] != order[j];
    }
  }

  /** Moving the key at position `p` and its node to the front keeps them corresponding. */
  lemma KeyedMoveToFront<K>(nodes: seq<Node<K>>, hashmap: map<K, nat>, order: seq<K>, handles: seq<nat>, p: nat)
    requires Keyed(nodes, hashmap, order, handles) && p < |order|
    ensures Distinct(handles)
    ensures Keyed(nodes, hashmap, Touch(order, order[p]), Touch(handles, handles[p]))
  {
    KeyedHandlesDistinct(nodes, hashmap, order, handles);
    TouchKeepsDistinct(order, order[p]);
    var o', h' := Touch(order, order[p]), Touch(handles, handles[p]);
    RemoveAt(order, p);
    RemoveAt(handles, p);
    forall i | 0 <= i < |o'|
      ensures o'[i] in hashmap && hashmap[o'[i]] == h'[i] && h'[i] < |nodes| && nodes[h'[i]].val == o'[i]
    {
      MoveToFrontAt(order, p, i);
      MoveToFrontAt(handles, p, i);
    }
  }

  /** `key_accessed` on a tracked key, outside the defect case: the key moves to the
      front of the order, the dictionary is unchanged, and so is the self-loop mark. */
  lemma AccessTracked<K>(s: ListState<K>, hashmap: map<K, nat>, order: seq<K>, handles: seq<nat>, key: K, n: nat)
    requires Tracks(s, hashmap, order, handles) && key in hashmap && !Defect(s, order, key)
    requires n == hashmap[key]
    ensures Closed(s) && n < |s.nodes| && PromoteDefined(s, n)
    ensures Tracks(Promote(s, n), hashmap, Touch(order, key), Touch(handles, n))
    ensures TailLooped(Promote(s, n)) == TailLooped(s)
  {
    var p := IndexOf(order, key);
    SelfLoopedTailIsDefect(s, hashmap, order, handles, p);
    PromoteMovesToFront(s, handles, n);
    KeyedMoveToFront(s.nodes, hashmap, order, handles, p);
    KeyedSameKeys(s.nodes, Promote(s, n).nodes, hashmap, Touch(order, key), Touch(handles, n));
  }

  /** `key_accessed` on an untracked key: a new node `n` is made at the end of the
      arena (state `s'`), registered in the dictionary and put in front; the list
      started from empty carries the self-loop mark. */
  lemma AccessNew<K>(s: ListState<K>, hashmap: map<K, nat>, order: seq<K>, handles: seq<nat>, key: K, s': ListState<K>, n: nat)
    requires Tracks(s, hashmap, order, handles) && key !in hashmap
    requires n == |s.nodes| && s' == s.(nodes := s.nodes + [Node(key, None, None)])
    ensures Closed(s') && n < |s'.nodes| && PromoteDefined(s', n)
    ensures Tracks(Promote(s', n), hashmap[key := n], Touch(order, key), Touch(handles, n))
    ensures TailLooped(Promote(s', n)) == (order == [] || TailLooped(s))
  {
    AppendKeepsRepresents(s, handles, key);
    PromoteMovesToFront(s', handles, n);
    KeyedAddFront(s.nodes, s'.nodes, hashmap, order, handles, key);
    KeyedSameKeys(s'.nodes, Promote(s', n).nodes, hashmap[key := n], Touch(order, key), Touch(handles, n));
  }

  lemma AppendKeepsRepresents<K>(s: ListState<K>, handles: seq<nat>, key: K)
    requires Represents(s, handles)
    ensures var s' := s.(nodes := s.nodes + [Node(key, None, None)]);
      Represents(s', handles) && TailLooped(s') == TailLooped(s) && |s.nodes| !in handles
  {
  }

  lemma KeyedAddFront<K>(nodes: seq<Node<K>>, nodes': seq<Node<K>>, hashmap: map<K, nat>, order: seq<K>, handles: seq<nat>, key: K)
    requires Keyed(nodes, hashmap, order, handles) && key !in hashmap
    requires nodes' == nodes + [Node(key, None, None)]
    requires |nodes| !in handles
    ensures Keyed(nodes', hashmap[key := |nodes|], Touch(order, key), Touch<nat>(handles, |nodes|))
  {
    var n: nat := |nodes|;
    var hm := hashmap[key := n];
    assert key !in order;
    TouchAbsent(order, key);
    TouchAbsent<nat>(handles, n);
    TouchKeepsDistinct(order, key);
    var o', h' := [key] + order, [n] + handles;
    forall i | 0 <= i < |o'|
      ensures o'[i] in hm && hm[o'[i]] == h'[i] && h'[i] < |nodes'| && nodes'[h'[i]].val == o'[i]
    {
      if i > 0 {
        assert o'[i] == order[i - 1] && h'[i] == handles[i - 1];
        assert nodes'[handles[i - 1]] == nodes[handles[i - 1]];
      }
    }
  }

  /** `key_to_remove`: on an empty list the tail is `None`; otherwise the tail node is
      the least recently used key's, which is dropped from the order and the
      dictionary, and no self-loop mark remains. */
  lemma RemoveTracked<K>(s: ListState<K>, hashmap: map<K, nat>, order: seq<K>, handles: seq<nat>)
    requires Tracks(s, hashmap, order, handles)
    ensures s.head != s.tail ==> s.tail.Some? && s.nodes[s.tail.value].prev.Some?
    ensures order == [] ==> PopTail(s) == (None, s)
    ensures order != [] ==>
      var (t, r) := PopTail(s);
      && t.Some? && t.value < |s.nodes| && s.nodes[t.value].val == Last(order)
      && Tracks(r, hashmap - {Last(order)}, order[..|order| - 1], handles[..|handles| - 1])
      && !TailLooped(r)
  {
    PopTailDropsLast(s, handles);
    if order != [] {
      var r := PopTail(s).1;
      var hm := hashmap - {Last(order)};
      var o', h' := order[..|order| - 1], handles[..|handles| - 1];
      forall i | 0 <= i < |o'|
        ensures o'[i] in hm && hm[o'[i]] == h'[i] && r.nodes[h'[i]].val == o'[i]
      {
        assert o'[i] == order[i] && h'[i] == handles[i];
        assert order[i] != order[|order| - 1];
      }
      forall k | k in hm ensures k in o' {
        var i :| 0 <= i < |order| && order[i] == k;
        assert i != |order| - 1;
        assert o'[i] == k;
      }
    }
  }
}
