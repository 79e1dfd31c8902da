/** Facts about sequences used by the recency order and the arena. */
module Seqs {

  /** No element occurs twice. */
  ghost predicate Distinct<T>(s: seq<T>) {
    forall i, j :: 0 <= i < j < |s| ==> s[i] != s[j]
  }

  function Last<T>(s: seq<T>): T
    requires s != []
  {
    s[|s| - 1]
  }

  /** `s` with every occurrence of `x` taken out, the others kept in order. */
  function Remove<T(==)>(s: seq<T>, x: T): (r: seq<T>)
    ensures forall y :: y in r ==> y in s && y != x
    ensures forall y :: y in s && y != x ==> y in r
    ensures |r| <= |s|
  {
    if s == [] then []
    else if s[0] == x then Remove(s[1..], x)
    else [s[0]] + Remove(s[1..], x)
  }

  /** Appending at the back keeps the front element and appends to the rest. */
  lemma AppendTail<T>(s: seq<T>, x: T)
    ensures s == [] ==> (s + [x])[1..] == []
    ensures s != [] ==> (s + [x])[0] == s[0] && (s + [x])[1..] == s[1..] + [x]
  {
  }

  /** The elements of `s` in the opposite order. */
  function Reverse<T>(s: seq<T>): (r: seq<T>)
    ensures |r| == |s|
    ensures forall i :: 0 <= i < |s| ==> r[i] == s[|s| - 1 - i]
  {
    if s == [] then [] else Reverse(s[1..]) + [s[0]]
  }

  /** In a sequence without repetitions, removing the element at position `p`
      is cutting that position out. */
  lemma {:induction false} RemoveAt<T>(s: seq<T>, p: nat)
    requires Distinct(s) && p < |s|
    ensures Remove(s, s[p]) == s[..p] + s[p + 1..]
  {
    if p == 0 {
      RemoveAbsent(s[1..], s[0]);
    } else {
      var t := s[1..];
      assert t[p - 1] == s[p] && s[0] != s[p];
      assert Distinct(t) by {
        forall i, j | 0 <= i < j < |t| ensures t[i] != t[j] {
          assert t[i] == s[i + 1] && t[j] == s[j + 1];
        }
      }
      RemoveAt(t, p - 1);
      assert Remove(s, s[p]) == [s[0]] + Remove(t, s[p]);
      assert [s[0]] + t[..p - 1] == s[..p];
      assert t[p..] == s[p + 1..];
    }
  }

  /** The position in `s` of position `i` of `s` with position `p` cut out. */
  function Uncut(p: nat, i: nat): nat {
    if i < p then i else i + 1
  }

  lemma CutAt<T>(s: seq<T>, p: nat, i: nat)
    requires p < |s| && i < |s| - 1
    ensures |s[..p] + s[p + 1..]| == |s| - 1 && (s[..p] + s[p + 1..])[i] == s[Uncut(p, i)]
  {
  }

  lemma DistinctCut<T>(s: seq<T>, p: nat)
    requires Distinct(s) && p < |s|
    ensures Distinct(s[..p] + s[p + 1..])
  {
    var c := s[..p] + s[p + 1..];
    forall i, j | 0 <= i < j < |c| ensures c[i] != c[j] {
      CutAt(s, p, i);
      CutAt(s, p, j);
    }
  }

  /** Removing an element that does not occur changes nothing. */
  lemma {:induction false} RemoveAbsent<T>(s: seq<T>, x: T)
    requires x !in s
    ensures Remove(s, x) == s
  {
    if s != [] {
      RemoveAbsent(s[1..], x);
    }
  }

  lemma DistinctTail<T>(s: seq<T>)
    requires Distinct(s) && s != []
    ensures Distinct(s[1..]) && Distinct(s[..|s| - 1])
  {
  }

  /** A sequence without repetitions has as many elements as its set. */
  lemma {:induction false} DistinctCard<T>(s: seq<T>)
    requires Distinct(s)
    ensures |set x | x in s| == |s|
  {
    if s != [] {
      DistinctCard(s[1..]);
      assert (set x | x in s) == (set x | x in s[1..]) + {s[0]};
      assert s[0] !in s[1..];
    }
  }
}
