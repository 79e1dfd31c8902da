/** `LL` and `LRUKeyAccessPolicy` (main.py:48-109): the least-recently-used eviction
    policy, built from a key-to-node dictionary and a doubly-linked recency list
    whose nodes live in an arena. */
module LruPolicy {
  import opened Wrappers
  import opened Seqs
  import opened Recency
  import opened RecencyList
  import opened LruTracking

  /** `LL`: the arena of nodes with the head (most recent) and tail (least recent). */
  class LinkedList<K> {
    var nodes: seq<Node<K>>
    var head: Option<nat>
    var tail: Option<nat>

    ghost function State(): ListState<K>
      reads this
    {
      ListState(nodes, head, tail)
    }

    constructor ()
      ensures State() == ListState([], None, None)
    {
      nodes, head, tail := [], None, None;
    }

    /** `Node(key)`: a new, detached node at the end of the arena. */
    method NewNode(key: K) returns (n: nat)
      modifies this
      ensures nodes == old(nodes) + [Node(key, None, None)] && n == |old(nodes)|
      ensures head == old(head) && tail == old(tail)
    {
      n := |nodes|;
      nodes := nodes + [Node(key, None, None)];
    }

    /** `make_node_head` (lines 58-82), in place. */
    method MakeNodeHead(n: nat)
      requires Closed(State()) && n < |nodes| && PromoteDefined(State(), n)
      modifies this
      ensures State() == Promote(old(State()), n)
      decreases if Detached(nodes[n]) then 0 else 1
    {
      if head == Some(n) {
        return;
      }
      if head.None? {
        head, tail := Some(n), Some(n);
        nodes := nodes[n := nodes[n].(next := tail)];
        nodes := nodes[n := nodes[n].(prev := head)];
      } else {
        var node := nodes[n];
        if node.prev.None? && node.next.None? {
          var h := head.value;
          nodes := nodes[n := nodes[n].(next := head)];
          nodes := nodes[h := nodes[h].(prev := Some(n))];
          head := Some(n);
        } else if node.next.None? {
          var p := node.prev.value;
          nodes := nodes[p := nodes[p].(next := None)];
          tail := node.prev;
          nodes := nodes[n := nodes[n].(prev := None, next := None)];
          MakeNodeHead(n);
        } else {
          var p, q := node.prev.value, node.next.value;
          nodes := nodes[p := nodes[p].(next := Some(q))];
          nodes := nodes[q := nodes[q].(prev := Some(p))];
          nodes := nodes[n := nodes[n].(prev := None, next := None)];
          MakeNodeHead(n);
        }
      }
    }

    /** `key_to_remove` (lines 84-92), in place: returns the tail node, `None` when
        the list is empty. */
    method KeyToRemove() returns (t: Option<nat>)
      requires Closed(State())
      requires head != tail ==> tail.Some? && nodes[tail.value].prev.Some?
      modifies this
      ensures (t, State()) == PopTail(old(State()))
    {
      if head == tail {
        t := head;
        head, tail := None, None;
        return;
      }
      t := tail;
      var p := nodes[tail.value].prev.value;
      nodes := nodes[p := nodes[p].(next := None)];
      tail := Some(p);
    }
  }

  /** `LRUKeyAccessPolicy`: `hashmap` maps every tracked key to its node. The ghost
      `order` is the abstract recency order (most recent first) and `handles` the
      node of each of its keys. */
  class LruPolicy<K(==)> {
    var hashmap: map<K, nat>
    const ll: LinkedList<K>
    ghost var order: seq<K>
    ghost var handles: seq<nat>
    /** The least recently used node still points to itself (see `RecencyList.TailLooped`). */
    ghost var looped: bool

    ghost predicate Valid()
      reads this, ll
    {
      Tracks(ll.State(), hashmap, order, handles) && looped == TailLooped(ll.State())
    }

    /** Accessing `key` would hit the defect of lines 62-64: `key` is the least
        recently used of two or more keys and its node still points to itself. */
    ghost predicate Defect(key: K)
      reads this
    {
      looped && |order| >= 2 && key == Last(order)
    }

    constructor ()
      ensures Valid() && fresh(ll)
      ensures order == [] && hashmap == map[] && !looped
    {
      hashmap := map[];
      ll := new LinkedList();
      order, handles, looped := [], [], false;
    }

    /** `key_accessed` (lines 98-104): `key` becomes the most recently used key, a
        new node being made for it only when it is not tracked yet. */
    method KeyAccessed(key: K)
      requires Valid() && !Defect(key)
      modifies this, ll
      ensures Valid()
      ensures order == Touch(old(order), key)
      ensures looped == (old(order) == [] || old(looped))
      ensures key in old(hashmap) ==> hashmap == old(hashmap)
      ensures hashmap.Keys == old(hashmap).Keys + {key}
    {
      if key in hashmap {
        AccessTrackedKey(key);
      } else {
        AccessNewKey(key);
      }
    }

    /** Line 100: the node of a tracked key moves to the front. */
    method AccessTrackedKey(key: K)
      requires Valid() && !Defect(key) && key in hashmap
      modifies this, ll
      ensures Valid()
      ensures order == Touch(old(order), key)
      ensures looped == old(looped) && hashmap == old(hashmap)
    {
      ghost var s := ll.State();
      var node := hashmap[key];
      AccessTracked(s, hashmap, order, handles, key, node);
      MoveToFront(s, node, Touch(order, key), Touch(handles, node));
    }

    /** Lines 102-104: a new node for an untracked key is registered and put in front. */
    method AccessNewKey(key: K)
      requires Valid() && key !in hashmap
      modifies this, ll
      ensures Valid()
      ensures order == Touch(old(order), key)
      ensures looped == (old(order) == [] || old(looped))
      ensures hashmap.Keys == old(hashmap).Keys + {key}
    {
      ghost var s := ll.State();
      var node := Register(key);
      AccessNew(s, old(hashmap), order, handles, key, ll.State(), node);
      MoveToFront(ll.State(), node, Touch(order, key), Touch(handles, node));
    }

    /** Lines 102-103: a new node for `key`, entered in the dictionary. */
    method Register(key: K) returns (node: nat)
      modifies this, ll
      ensures node == |old(ll.nodes)| && ll.State() == old(ll.State()).(nodes := old(ll.nodes) + [Node(key, None, None)])
      ensures hashmap == old(hashmap)[key := node] && hashmap.Keys == old(hashmap).Keys + {key}
      ensures order == old(order) && handles == old(handles) && looped == old(looped)
    {
      node := ll.NewNode(key);
      hashmap := hashmap[key := node];
    }

    /** `make_node_head` on the node of a key, after which the order is `order'`. */
    method MoveToFront(ghost u: ListState<K>, node: nat, ghost order': seq<K>, ghost handles': seq<nat>)
      requires ll.State() == u && Closed(u) && node < |u.nodes| && PromoteDefined(u, node)
      requires Tracks(Promote(u, node), hashmap, order', handles')
      modifies this, ll
      ensures Valid() && order == order' && hashmap == old(hashmap)
      ensures looped == TailLooped(Promote(u, node))
    {
      ll.MakeNodeHead(node);
      order, handles, looped := order', handles', TailLooped(ll.State());
    }

    /** `key_to_remove` (lines 106-109): returns the least recently used key and stops
        tracking it; with no key tracked, the tail is `None` and reading its key fails
        (`PolicyEmpty`), leaving everything as it was. */
    method KeyToRemove() returns (r: Result<K>)
      requires Valid()
      modifies this, ll
      ensures Valid() && !looped
      ensures old(order) == [] ==> r == Err(PolicyEmpty) && order == [] && hashmap == old(hashmap)
      ensures old(order) != [] ==> && r == Ok(Last(old(order)))
                                   && order == old(order)[..|old(order)| - 1]
                                   && hashmap == old(hashmap) - {Last(old(order))}
    {
      TrackedKeys(ll.State(), hashmap, order, handles);
      RemoveTracked(ll.State(), hashmap, order, handles);
      var tail := ll.KeyToRemove();
      looped := false;
      if tail.None? {
        return Err(PolicyEmpty);
      }
      var key := ll.nodes[tail.value].val;
      hashmap := hashmap - {key};
      order, handles := order[..|order| - 1], handles[..|handles| - 1];
      return Ok(key);
    }
  }
}
