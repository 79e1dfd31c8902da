/** The doubly-linked recency list of the LRU policy (`Node` and `LL` in main.py),
    stored in an arena: a node is named by its position in `nodes`, and `prev`,
    `next`, `head` and `tail` hold positions instead of references.

    The functions below transcribe the pointer updates of `LL.make_node_head` and
    `LL.key_to_remove` step by step, on whole list states; the class
    `LruPolicy.LinkedList` performs the same updates in place and is proved equal
    to them. The lemmas relate the pointers to the abstract head-to-tail sequence
    of node positions (`Represents`). */
module RecencyList {
  import opened Wrappers
  import opened Seqs
  import opened Recency

  /** One access record: the key it stands for and its two neighbours. */
  datatype Node<K> = Node(val: K, prev: Option<nat>, next: Option<nat>)

  /** The arena with the list's two end pointers. */
  datatype ListState<K> = ListState(nodes: seq<Node<K>>, head: Option<nat>, tail: Option<nat>)

  predicate InRange<K>(nodes: seq<Node<K>>, p: Option<nat>) {
    p.None? || p.value < |nodes|
  }

  /** Every pointer names a node of the arena (a Python reference is never dangling). */
  ghost predicate Closed<K>(s: ListState<K>) {
    InRange(s.nodes, s.head) && InRange(s.nodes, s.tail) &&
    forall i :: 0 <= i < |s.nodes| ==> InRange(s.nodes, s.nodes[i].prev) && InRange(s.nodes, s.nodes[i].next)
  }

  /** A node that is linked to nothing, as a freshly made `Node(key)` is. */
  predicate Detached<K>(node: Node<K>) {
    node.prev.None? && node.next.None?
  }

  /** The tail node still points to itself: the trace left by the empty-list branch
      of `make_node_head`, which links the lone node to itself. */
  ghost predicate TailLooped<K>(s: ListState<K>) {
    s.tail.Some? && s.tail.value < |s.nodes| && s.nodes[s.tail.value].next == s.tail
  }

  /** `make_node_head(n)` reaches `prev.next = next` with `prev` being `None` (an
      `AttributeError` in Python) only for a non-head node with no predecessor and a
      successor; every other case is defined. */
  ghost predicate PromoteDefined<K>(s: ListState<K>, n: nat)
    requires n < |s.nodes|
  {
    !(s.head.Some? && s.head != Some(n) && s.nodes[n].prev.None? && s.nodes[n].next.Some?)
  }

  /** Lines 62-64: the list was empty; `n` becomes head and tail and is linked to itself. */
  function InitSingle<K>(s: ListState<K>, n: nat): (r: ListState<K>)
    requires Closed(s) && n < |s.nodes|
    ensures Closed(r) && SameKeys(s, r)
  {
    var nodes := s.nodes[n := s.nodes[n].(next := Some(n))];
    ListState(nodes[n := nodes[n].(prev := Some(n))], Some(n), Some(n))
  }

  /** Lines 67-70: the detached node `n` is linked in before the current head. */
  function PushFront<K>(s: ListState<K>, n: nat): (r: ListState<K>)
    requires Closed(s) && s.head.Some? && n < |s.nodes|
    ensures Closed(r) && SameKeys(s, r)
  {
    var h := s.head.value;
    var nodes := s.nodes[n := s.nodes[n].(next := Some(h))];
    ListState(nodes[h := nodes[h].(prev := Some(n))], Some(n), s.tail)
  }

  /** Lines 72-74: the tail node `n` is cut off; its predecessor becomes the tail. */
  function UnlinkTail<K>(s: ListState<K>, n: nat): (r: ListState<K>)
    requires Closed(s) && n < |s.nodes| && s.nodes[n].prev.Some?
    ensures Closed(r) && SameKeys(s, r)
  {
    var p := s.nodes[n].prev.value;
    var nodes := s.nodes[p := s.nodes[p].(next := None)];
    ListState(nodes[n := nodes[n].(prev := None, next := None)], s.head, Some(p))
  }

  /** Lines 77-81: an inner node `n` is cut out by joining its two neighbours. */
  function Unlink<K>(s: ListState<K>, n: nat): (r: ListState<K>)
    requires Closed(s) && n < |s.nodes|
    requires s.nodes[n].prev.Some? && s.nodes[n].next.Some?
    ensures Closed(r) && SameKeys(s, r)
  {
    var p, q := s.nodes[n].prev.value, s.nodes[n].next.value;
    var nodes := s.nodes[p := s.nodes[p].(next := Some(q))];
    var nodes := nodes[q := nodes[q].(prev := Some(p))];
    ListState(nodes[n := nodes[n].(prev := None, next := None)], s.head, s.tail)
  }

  /** Nodes keep their keys and the arena keeps its size. */
  ghost predicate SameKeys<K>(s: ListState<K>, r: ListState<K>) {
    |r.nodes| == |s.nodes| && forall i :: 0 <= i < |s.nodes| ==> r.nodes[i].val == s.nodes[i].val
  }

  /** `LL.make_node_head(n)` (lines 58-82) as written: after unlinking a tail or an
      inner node it calls itself again on the now detached node. Whatever the
      case, `n` ends up as head, and an empty list ends up with `n` as head and tail. */
  ghost function Promote<K>(s: ListState<K>, n: nat): (r: ListState<K>)
    requires Closed(s) && n < |s.nodes| && PromoteDefined(s, n)
    ensures Closed(r) && SameKeys(s, r)
    ensures r.head == Some(n)
    ensures s.head.None? ==> r.tail == Some(n)
    decreases if Detached(s.nodes[n]) then 0 else 1
  {
    if s.head == Some(n) then s
    else if s.head.None? then InitSingle(s, n)
    else if Detached(s.nodes[n]) then PushFront(s, n)
    else if s.nodes[n].next.None? then Promote(UnlinkTail(s, n), n)
    else Promote(Unlink(s, n), n)
  }

  /** `LL.key_to_remove` (lines 84-92) as written: returns the tail (`None` on an
      empty list) and unlinks it. */
  ghost function PopTail<K>(s: ListState<K>): (r: (Option<nat>, ListState<K>))
    requires Closed(s)
    requires s.head != s.tail ==> s.tail.Some? && s.nodes[s.tail.value].prev.Some?
    ensures Closed(r.1) && SameKeys(s, r.1)
    ensures r.0 == s.tail
  {
    if s.head == s.tail then (s.head, s.(head := None, tail := None))
    else
      var t := s.tail.value;
      var p := s.nodes[t].prev.value;
      (Some(t), ListState(s.nodes[p := s.nodes[p].(next := None)], s.head, Some(p)))
  }

  /** The pointers describe the list `hs` of node positions, head first: the ends
      are right, consecutive nodes point at each other, and no node occurs twice.
      The head's `prev` is `None` except in a list of one node made by the
      empty-list branch, and the tail's `next` is `None` or the tail itself. */
  ghost predicate Represents<K>(s: ListState<K>, hs: seq<nat>) {
    Closed(s) && Distinct(hs) &&
    (forall i :: 0 <= i < |hs| ==> hs[i] < |s.nodes|) &&
    (if hs == [] then s.head.None? && s.tail.None?
     else
       && s.head == Some(hs[0]) && s.tail == Some(Last(hs))
       && (s.nodes[hs[0]].prev.None? || (|hs| == 1 && s.nodes[hs[0]].prev == Some(hs[0])))
       && (s.nodes[Last(hs)].next.None? || s.nodes[Last(hs)].next == Some(Last(hs)))) &&
    (forall i :: 0 <= i < |hs| - 1 ==> s.nodes[hs[i]].next == Some(hs[i + 1])) &&
    (forall i :: 0 < i < |hs| ==> s.nodes[hs[i]].prev == Some(hs[i - 1]))
  }

  /** The one case in which `make_node_head` breaks the list: `n` is the tail of a
      list of two or more nodes and still points to itself. */
  ghost predicate SelfLoopedTail<K>(s: ListState<K>, n: nat) {
    TailLooped(s) && s.tail == Some(n) && s.head != Some(n)
  }

  lemma InitSingleLinks<K>(s: ListState<K>, n: nat)
    requires Represents(s, []) && n < |s.nodes|
    ensures Represents(InitSingle(s, n), [n]) && TailLooped(InitSingle(s, n))
  {
  }

  lemma PushFrontLinks<K>(s: ListState<K>, hs: seq<nat>, n: nat)
    requires Represents(s, hs) && hs != []
    requires n < |s.nodes| && Detached(s.nodes[n]) && n !in hs
    ensures Represents(PushFront(s, n), [n] + hs)
    ensures TailLooped(PushFront(s, n)) == TailLooped(s)
  {
    var r := PushFront(s, n);
    var hs' := [n] + hs;
    assert Distinct(hs');
    forall i | 0 <= i < |hs'| - 1
      ensures r.nodes[hs'[i]].next == Some(hs'[i + 1])
    {
      if i > 0 {
        assert hs'[i] == hs[i - 1] && hs'[i + 1] == hs[i];
      }
    }
    forall i | 0 < i < |hs'|
      ensures r.nodes[hs'[i]].prev == Some(hs'[i - 1])
    {
      if i > 1 {
        assert hs'[i] == hs[i - 1] && hs'[i - 1] == hs[i - 2];
      }
    }
  }

  lemma UnlinkTailLinks<K>(s: ListState<K>, hs: seq<nat>)
    requires Represents(s, hs) && |hs| >= 2 && s.nodes[Last(hs)].next.None?
    ensures s.nodes[Last(hs)].prev == Some(hs[|hs| - 2])
    ensures Represents(UnlinkTail(s, Last(hs)), hs[..|hs| - 1])
    ensures Detached(UnlinkTail(s, Last(hs)).nodes[Last(hs)])
    ensures !TailLooped(UnlinkTail(s, Last(hs))) && !TailLooped(s)
  {
    var n := Last(hs);
    assert s.nodes[hs[|hs| - 1]].prev == Some(hs[|hs| - 2]);
    var r := UnlinkTail(s, n);
    var hs' := hs[..|hs| - 1];
    forall i | 0 <= i < |hs'| - 1
      ensures r.nodes[hs'[i]].next == Some(hs'[i + 1])
    {
      assert hs'[i] == hs[i] && hs'[i + 1] == hs[i + 1];
    }
    forall i | 0 < i < |hs'|
      ensures r.nodes[hs'[i]].prev == Some(hs'[i - 1])
    {
      assert hs'[i] == hs[i] && hs'[i - 1] == hs[i - 1];
    }
  }

  lemma UnlinkLinks<K>(s: ListState<K>, hs: seq<nat>, p: nat)
    requires Represents(s, hs) && 0 < p < |hs| - 1
    ensures s.nodes[hs[p]].prev == Some(hs[p - 1]) && s.nodes[hs[p]].next == Some(hs[p + 1])
    ensures Represents(Unlink(s, hs[p]), hs[..p] + hs[p + 1..])
    ensures Detached(Unlink(s, hs[p]).nodes[hs[p]])
    ensures TailLooped(Unlink(s, hs[p])) == TailLooped(s)
  {
    assert s.nodes[hs[p]].prev == Some(hs[p - 1]) && s.nodes[hs[p]].next == Some(hs[p + 1]);
    DistinctCut(hs, p);
    CutAt(hs, p, 0);
    CutAt(hs, p, |hs| - 2);
    UnlinkNextLinks(s, hs, p);
    UnlinkPrevLinks(s, hs, p);
  }

  lemma UnlinkNextLinks<K>(s: ListState<K>, hs: seq<nat>, p: nat)
    requires Represents(s, hs) && 0 < p < |hs| - 1
    requires s.nodes[hs[p]].prev == Some(hs[p - 1]) && s.nodes[hs[p]].next == Some(hs[p + 1])
    ensures var r, hs' := Unlink(s, hs[p]), hs[..p] + hs[p + 1..];
      forall i :: 0 <= i < |hs'| - 1 ==> r.nodes[hs'[i]].next == Some(hs'[i + 1])
  {
    var r, hs' := Unlink(s, hs[p]), hs[..p] + hs[p + 1..];
    forall i | 0 <= i < |hs'| - 1
      ensures r.nodes[hs'[i]].next == Some(hs'[i + 1])
    {
      CutAt(hs, p, i);
      CutAt(hs, p, i + 1);
      var k := Uncut(p, i);
      assert hs[k] != hs[p] && (k != p - 1 ==> hs[k] != hs[p - 1]);
    }
  }

  lemma UnlinkPrevLinks<K>(s: ListState<K>, hs: seq<nat>, p: nat)
    requires Represents(s, hs) && 0 < p < |hs| - 1
    requires s.nodes[hs[p]].prev == Some(hs[p - 1]) && s.nodes[hs[p]].next == Some(hs[p + 1])
    ensures var r, hs' := Unlink(s, hs[p]), hs[..p] + hs[p + 1..];
      forall i :: 0 < i < |hs'| ==> r.nodes[hs'[i]].prev == Some(hs'[i - 1])
  {
    var r, hs' := Unlink(s, hs[p]), hs[..p] + hs[p + 1..];
    forall i | 0 < i < |hs'|
      ensures r.nodes[hs'[i]].prev == Some(hs'[i - 1])
    {
      CutAt(hs, p, i);
      CutAt(hs, p, i - 1);
      var k := Uncut(p, i);
      assert hs[k] != hs[p] && (k != p + 1 ==> hs[k] != hs[p + 1]);
    }
  }

  /** Outside the self-looped-tail case, `make_node_head(n)` moves `n` to the front
      of the list (or adds it there when it was detached), keeps every other node
      in its order, and leaves the self-loop mark of the tail as it was, except that
      a list started from empty carries it. */
  lemma PromoteMovesToFront<K>(s: ListState<K>, hs: seq<nat>, n: nat)
    requires Represents(s, hs)
    requires n in hs || (n < |s.nodes| && Detached(s.nodes[n]))
    requires !SelfLoopedTail(s, n)
    ensures n < |s.nodes| && PromoteDefined(s, n)
    ensures Represents(Promote(s, n), Touch(hs, n))
    ensures TailLooped(Promote(s, n)) == (hs == [] || TailLooped(s))
  {
    if n in hs {
      PromoteListed(s, hs, IndexOf(hs, n));
    } else {
      TouchAbsent(hs, n);
      if hs == [] {
        InitSingleLinks(s, n);
      } else {
        PushFrontLinks(s, hs, n);
      }
    }
  }

  /** `make_node_head` on the node at position `p` of the list. */
  lemma PromoteListed<K>(s: ListState<K>, hs: seq<nat>, p: nat)
    requires Represents(s, hs) && p < |hs| && !SelfLoopedTail(s, hs[p])
    ensures PromoteDefined(s, hs[p])
    ensures Represents(Promote(s, hs[p]), Touch(hs, hs[p]))
    ensures TailLooped(Promote(s, hs[p])) == TailLooped(s)
  {
    if p == 0 {
      RemoveAt(hs, 0);
      assert Touch(hs, hs[0]) == hs;
    } else if p == |hs| - 1 {
      PromoteTail(s, hs);
    } else {
      PromoteInner(s, hs, p);
    }
  }

  /** Lines 72-75: the tail is cut off, then linked in front. */
  lemma PromoteTail<K>(s: ListState<K>, hs: seq<nat>)
    requires Represents(s, hs) && |hs| >= 2 && !SelfLoopedTail(s, Last(hs))
    ensures PromoteDefined(s, hs[|hs| - 1])
    ensures Represents(Promote(s, hs[|hs| - 1]), Touch(hs, hs[|hs| - 1]))
    ensures TailLooped(Promote(s, hs[|hs| - 1])) == TailLooped(s)
  {
    var n := Last(hs);
    RemoveAt(hs, |hs| - 1);
    assert Touch(hs, n) == [n] + hs[..|hs| - 1];
    assert hs[0] != hs[|hs| - 1];
    assert s.nodes[n].next.None?;
    UnlinkTailLinks(s, hs);
    PushFrontLinks(UnlinkTail(s, n), hs[..|hs| - 1], n);
    assert Promote(s, n) == PushFront(UnlinkTail(s, n), n);
  }

  /** Lines 77-81: an inner node is cut out, then linked in front. */
  lemma PromoteInner<K>(s: ListState<K>, hs: seq<nat>, p: nat)
    requires Represents(s, hs) && 0 < p < |hs| - 1
    ensures PromoteDefined(s, hs[p])
    ensures Represents(Promote(s, hs[p]), Touch(hs, hs[p]))
    ensures TailLooped(Promote(s, hs[p])) == TailLooped(s)
  {
    var n := hs[p];
    RemoveAt(hs, p);
    assert Touch(hs, n) == [n] + (hs[..p] + hs[p + 1..]);
    assert hs[0] != hs[p];
    UnlinkLinks(s, hs, p);
    PushFrontLinks(Unlink(s, n), hs[..p] + hs[p + 1..], n);
    assert Promote(s, n) == PushFront(Unlink(s, n), n);
  }

  /** `key_to_remove` returns the tail and leaves the list without it: empty when
      head and tail coincided, otherwise ended by the old tail's predecessor, whose
      `next` is cleared. */
  lemma PopTailDropsLast<K>(s: ListState<K>, hs: seq<nat>)
    requires Represents(s, hs)
    ensures s.head != s.tail ==> s.tail.Some? && s.nodes[s.tail.value].prev.Some?
    ensures hs == [] ==> PopTail(s).0 == None && PopTail(s).1 == s
    ensures hs != [] ==> PopTail(s).0 == Some(Last(hs))
    ensures hs != [] ==> Represents(PopTail(s).1, hs[..|hs| - 1]) && !TailLooped(PopTail(s).1)
  {
    if |hs| >= 2 {
      assert s.head != s.tail by {
        assert hs[0] != hs[|hs| - 1];
      }
      assert s.nodes[hs[|hs| - 1]].prev == Some(hs[|hs| - 2]);
      var r := PopTail(s).1;
      var hs' := hs[..|hs| - 1];
      forall i | 0 <= i < |hs'| - 1
        ensures r.nodes[hs'[i]].next == Some(hs'[i + 1])
      {
        assert hs'[i] == hs[i] && hs'[i + 1] == hs[i + 1];
      }
      forall i | 0 < i < |hs'|
        ensures r.nodes[hs'[i]].prev == Some(hs'[i - 1])
      {
        assert hs'[i] == hs[i] && hs'[i - 1] == hs[i - 1];
      }
    }
  }

  /** Head and tail coincide only on a list of at most one node. */
  lemma HeadIsTailOnlyWhenSingle<K>(s: ListState<K>, hs: seq<nat>)
    requires Represents(s, hs) && s.head == s.tail
    ensures |hs| <= 1
  {
  }

  /** The defect of lines 62-64: re-accessing a tail that still points to itself,
      in a list of two or more nodes, takes the inner-node branch (the test
      `node.next is None` of line 71 fails). Afterwards head and tail are both that
      node, whose `next` leads back into the other nodes: the pointers describe no
      list at all, and the next `key_to_remove` returns that node and empties the
      list, orphaning the other nodes although the policy still tracks their keys. */
  lemma SelfLoopedTailOrphans<K>(s: ListState<K>, hs: seq<nat>)
    requires Represents(s, hs) && |hs| >= 2 && TailLooped(s)
    ensures PromoteDefined(s, Last(hs))
    ensures Promote(s, Last(hs)).head == Some(Last(hs)) && Promote(s, Last(hs)).tail == Some(Last(hs))
    ensures Promote(s, Last(hs)).nodes[Last(hs)].next == Some(hs[0])
    ensures forall hs': seq<nat> :: !Represents(Promote(s, Last(hs)), hs')
    ensures PopTail(Promote(s, Last(hs))) == (Some(Last(hs)), Promote(s, Last(hs)).(head := None, tail := None))
  {
    var n := Last(hs);
    assert s.nodes[n].prev == Some(hs[|hs| - 2]);
    assert s.head == Some(hs[0]) && hs[0] != n;
    assert s.nodes[n].next == Some(n) && !Detached(s.nodes[n]);
    var u := Unlink(s, n);
    assert Closed(u) && u.head == s.head && u.tail == Some(n) && Detached(u.nodes[n]);
    assert Promote(u, n) == PushFront(u, n);
    var r := Promote(s, n);
    assert r == Promote(u, n);
    forall hs': seq<nat> ensures !Represents(r, hs') {
      if Represents(r, hs') {
        HeadIsTailOnlyWhenSingle(r, hs');
      }
    }
  }
}
