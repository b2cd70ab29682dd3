/**
  The intrusive circular doubly-linked list of list.h.

  Nodes live in an arena: node `i` has its `prev` and `next` links in
  `prev[i]` and `next[i]`. Index `Head` (0) is the sentinel node, the
  `struct list_node` that names the list itself; indices 1 .. Capacity()-1
  are the nodes that can be linked into it. The C null pointer is `Null`.
  The ghost sequence `Elems` is the ring order read from the sentinel.
 */
module IntrusiveList {

  /** The null pointer. */
  const Null: int := -1

  /** The sentinel node, i.e. the list head itself. */
  const Head: int := 0

  /** The index of `x` in `s`. */
  function IndexOf(s: seq<int>, x: int): (k: nat)
    requires x in s
    ensures k < |s| && s[k] == x
    ensures forall j | 0 <= j < k :: s[j] != x
  {
    if s[0] == x then 0 else 1 + IndexOf(s[1..], x)
  }

  /** `s` without the (first) occurrence of `x`. */
  function Without(s: seq<int>, x: int): (r: seq<int>)
    requires x in s
  {
    var k := IndexOf(s, x);
    s[..k] + s[k + 1..]
  }

  /** Removing an element of a sequence without repetitions leaves
      exactly the other elements, in their previous order. */
  lemma {:induction false} WithoutSpec(s: seq<int>, x: int)
    requires x in s
    requires forall i, j | 0 <= i < j < |s| :: s[i] != s[j]
    ensures |Without(s, x)| == |s| - 1
    ensures x !in Without(s, x)
    ensures forall y :: y in Without(s, x) <==> y in s && y != x
    ensures forall i, j | 0 <= i < j < |Without(s, x)| :: Without(s, x)[i] != Without(s, x)[j]
  {
    var k := IndexOf(s, x);
    var r := Without(s, x);
    assert r == s[..k] + s[k + 1..];
    forall y | y in r ensures y in s && y != x {
      var i :| 0 <= i < |r| && r[i] == y;
      if i < k { assert r[i] == s[i]; } else { assert r[i] == s[i + 1]; }
    }
    forall y | y in s && y != x ensures y in r {
      var i :| 0 <= i < |s| && s[i] == y;
      if i < k { assert r[i] == y; } else { assert i != k; assert r[i - 1] == y; }
    }
  }

  /** The node at ring position `k` of the order `e`: `e[k]` for a
      linked node, the sentinel one step before the first node and one
      step after the last. */
  function AtOf(e: seq<int>, k: int): int
    requires -1 <= k <= |e|
  {
    if 0 <= k < |e| then e[k] else Head
  }

  /** No node occurs twice in `e`. */
  ghost predicate Distinct(e: seq<int>) {
    forall i, j | 0 <= i < j < |e| :: e[i] != e[j]
  }

  /** The node at position `i` of `e` occurs nowhere else in `e`. */
  ghost predicate UniqueAt(e: seq<int>, i: int) {
    0 <= i < |e| && forall j | 0 <= j < |e| && j != i :: e[j] != e[i]
  }

  /** A sequence without repetitions has each of its nodes once. */
  lemma DistinctUnique(e: seq<int>, i: int)
    requires Distinct(e) && 0 <= i < |e|
    ensures UniqueAt(e, i)
  {
    forall j | 0 <= j < |e| && j != i ensures e[j] != e[i] {
      if j < i { assert e[j] != e[i]; } else { assert e[i] != e[j]; }
    }
  }

  /** Following `nx` (the next pointers) from the sentinel visits the
      nodes of `e` in order and comes back to the sentinel. */
  ghost predicate Forward(nx: seq<int>, e: seq<int>) {
    && |nx| >= 1
    && (forall k | 0 <= k < |e| :: Head < e[k] < |nx|)
    && nx[Head] == AtOf(e, 0)
    && (forall k {:trigger nx[e[k]]} | 0 <= k < |e| :: nx[e[k]] == AtOf(e, k + 1))
  }

  /** Following `pv` (the prev pointers) from the sentinel visits the
      nodes of `e` in reverse order and comes back to the sentinel. */
  ghost predicate Backward(pv: seq<int>, e: seq<int>) {
    && |pv| >= 1
    && (forall k | 0 <= k < |e| :: Head < e[k] < |pv|)
    && pv[Head] == AtOf(e, |e| - 1)
    && (forall k {:trigger pv[e[k]]} | 0 <= k < |e| :: pv[e[k]] == AtOf(e, k - 1))
  }

  /** The ring invariant over the link tables `nx` (next) and `pv`
      (prev) with ring order `e`. Nodes that are not linked may hold any
      stale pointers. */
  ghost predicate IsRing(nx: seq<int>, pv: seq<int>, e: seq<int>) {
    |pv| == |nx| && Distinct(e) && Forward(nx, e) && Backward(pv, e)
  }

  /** In a ring every linked node, the sentinel included, is pointed
      back at by both of its neighbours, and both neighbours are linked. */
  lemma RingLinks(nx: seq<int>, pv: seq<int>, e: seq<int>, n: int)
    requires IsRing(nx, pv, e)
    requires n == Head || n in e
    ensures 0 <= nx[n] < |nx| && 0 <= pv[n] < |nx|
    ensures nx[n] == Head || nx[n] in e
    ensures pv[n] == Head || pv[n] in e
    ensures pv[nx[n]] == n && nx[pv[n]] == n
  {
    if n == Head {
      if e != [] {
        assert pv[e[0]] == Head;
        assert nx[e[|e| - 1]] == Head;
      }
    } else {
      var k := IndexOf(e, n);
      if k < |e| - 1 {
        assert pv[e[k + 1]] == n;
      }
      if k > 0 {
        assert nx[e[k - 1]] == n;
      }
    }
  }

  /** list_add_head's writes to the next pointers: the walk forward
      from the sentinel now meets `item` first. */
  lemma ForwardAddHead(nx: seq<int>, e: seq<int>, item: int)
    requires Forward(nx, e) && Head < item < |nx| && item !in e
    ensures Forward(nx[item := nx[Head]][Head := item], [item] + e)
  {
    var nx', e' := nx[item := nx[Head]][Head := item], [item] + e;
    forall k | 0 <= k < |e'|
      ensures Head < e'[k] < |nx'| && nx'[e'[k]] == AtOf(e', k + 1)
    {
      if k > 0 {
        assert e'[k] == e[k - 1] != item;
      }
    }
  }

  /** list_add_head's writes to the prev pointers: the old first node
      (or the sentinel, in an empty ring) now points back at `item`. */
  lemma BackwardAddHead(pv: seq<int>, e: seq<int>, item: int, first: int)
    requires Backward(pv, e) && Head < item < |pv| && item !in e
    requires first == AtOf(e, 0) && (e != [] ==> UniqueAt(e, 0))
    ensures Backward(pv[item := Head][first := item], [item] + e)
  {
    var pv', e' := pv[item := Head][first := item], [item] + e;
    forall k | 0 <= k < |e'|
      ensures Head < e'[k] < |pv'| && pv'[e'[k]] == AtOf(e', k - 1)
    {
      if k > 0 {
        assert e'[k] == e[k - 1] != item;
        if k > 1 {
          assert e[k - 1] != e[0];
        }
      }
    }
    if e != [] {
      assert e'[|e'| - 1] == e[|e| - 1];
    }
  }

  /** list_add_tail's writes to the next pointers: the old last node (or
      the sentinel, in an empty ring) now leads to `item`. */
  lemma ForwardAddTail(nx: seq<int>, e: seq<int>, item: int, last: int)
    requires Forward(nx, e) && Head < item < |nx| && item !in e
    requires last == AtOf(e, |e| - 1) && (e != [] ==> UniqueAt(e, |e| - 1))
    ensures Forward(nx[item := Head][last := item], e + [item])
  {
    var nx', e' := nx[item := Head][last := item], e + [item];
    forall k | 0 <= k < |e'|
      ensures Head < e'[k] < |nx'| && nx'[e'[k]] == AtOf(e', k + 1)
    {
      if k < |e| {
        assert e'[k] == e[k] != item;
        if k < |e| - 1 {
          assert e[k] != e[|e| - 1];
        }
      }
    }
  }

  /** list_add_tail's writes to the prev pointers: the walk backward
      from the sentinel now meets `item` first. */
  lemma BackwardAddTail(pv: seq<int>, e: seq<int>, item: int)
    requires Backward(pv, e) && Head < item < |pv| && item !in e
    ensures Backward(pv[item := pv[Head]][Head := item], e + [item])
  {
    var pv', e' := pv[item := pv[Head]][Head := item], e + [item];
    forall k | 0 <= k < |e'|
      ensures Head < e'[k] < |pv'| && pv'[e'[k]] == AtOf(e', k - 1)
    {
      if k < |e| {
        assert e'[k] == e[k] != item;
      }
    }
  }

  /** A node that is not in a sequence without repetitions can be added
      at either end. */
  lemma DistinctExtend(e: seq<int>, item: int)
    requires Distinct(e) && item !in e
    ensures Distinct([item] + e) && Distinct(e + [item])
  {
    var h, t := [item] + e, e + [item];
    forall i, j | 0 <= i < j < |h| ensures h[i] != h[j] {
      assert h[j] == e[j - 1];
      if i > 0 { assert h[i] == e[i - 1]; }
    }
    forall i, j | 0 <= i < j < |t| ensures t[i] != t[j] {
      assert t[i] == e[i];
      if j < |e| { assert t[j] == e[j]; }
    }
  }

  /** The four pointer writes of list_add_head turn a ring with order `e`
      into one with order `[item] + e`. */
  lemma RingAddHead(nx: seq<int>, pv: seq<int>, e: seq<int>, item: int)
    requires IsRing(nx, pv, e)
    requires Head < item < |nx| && item !in e
    ensures var first := nx[Head];
            IsRing(nx[item := first][Head := item], pv[item := Head][first := item], [item] + e)
  {
    if e != [] { DistinctUnique(e, 0); }
    ForwardAddHead(nx, e, item);
    BackwardAddHead(pv, e, item, nx[Head]);
    DistinctExtend(e, item);
  }

  /** The four pointer writes of list_add_tail turn a ring with order `e`
      into one with order `e + [item]`. */
  lemma RingAddTail(nx: seq<int>, pv: seq<int>, e: seq<int>, item: int)
    requires IsRing(nx, pv, e)
    requires Head < item < |nx| && item !in e
    ensures var last := pv[Head];
            IsRing(nx[item := Head][last := item], pv[item := last][Head := item], e + [item])
  {
    if e != [] { DistinctUnique(e, |e| - 1); }
    ForwardAddTail(nx, e, item, pv[Head]);
    BackwardAddTail(pv, e, item);
    DistinctExtend(e, item);
  }

  /** `r` is `e` with the node at position `k` left out. */
  ghost predicate Skips(e: seq<int>, k: int, r: seq<int>) {
    && 0 <= k < |e|
    && |r| == |e| - 1
    && (forall j {:trigger r[j]} | 0 <= j < k :: r[j] == e[j])
    && (forall j {:trigger r[j]} | k <= j < |r| :: r[j] == e[j + 1])
  }

  /** Unlinking the node at position `k`: its predecessor's next
      pointer skips it, and the walk forward visits the other nodes. */
  lemma ForwardDelete(nx: seq<int>, e: seq<int>, k: int, r: seq<int>, n: int)
    requires Forward(nx, e) && Skips(e, k, r)
    requires UniqueAt(e, k) && (k > 0 ==> UniqueAt(e, k - 1))
    ensures Forward(nx[AtOf(e, k - 1) := AtOf(e, k + 1)][e[k] := n], r)
  {
    var before, after := AtOf(e, k - 1), AtOf(e, k + 1);
    var nx' := nx[before := after][e[k] := n];
    forall j | 0 <= j < |r|
      ensures Head < r[j] < |nx'| && nx'[r[j]] == AtOf(r, j + 1)
    {
      if j < k {
        assert r[j] == e[j] != e[k];
        assert j < k - 1 ==> e[j] != before;
      } else {
        assert r[j] == e[j + 1] != e[k];
      }
    }
    assert nx'[Head] == AtOf(r, 0);
  }

  /** Unlinking the node at position `k`: its successor's prev pointer
      skips it, and the walk backward visits the other nodes. */
  lemma BackwardDelete(pv: seq<int>, e: seq<int>, k: int, r: seq<int>, p: int)
    requires Backward(pv, e) && Skips(e, k, r)
    requires UniqueAt(e, k) && (k + 1 < |e| ==> UniqueAt(e, k + 1))
    ensures Backward(pv[AtOf(e, k + 1) := AtOf(e, k - 1)][e[k] := p], r)
  {
    var before, after := AtOf(e, k - 1), AtOf(e, k + 1);
    var pv' := pv[after := before][e[k] := p];
    forall j | 0 <= j < |r|
      ensures Head < r[j] < |pv'| && pv'[r[j]] == AtOf(r, j - 1)
    {
      BackwardDeleteAt(pv, e, k, r, p, j);
    }
    BackwardDeleteHead(pv, e, k, r, p);
  }

  /** The head's prev pointer after unlinking the node at position `k`
      names the last node of the shortened ring. */
  lemma BackwardDeleteHead(pv: seq<int>, e: seq<int>, k: int, r: seq<int>, p: int)
    requires Skips(e, k, r) && Head < e[k] < |pv|
    requires k + 1 < |e| ==> Head < e[k + 1] < |pv|
    requires pv[Head] == AtOf(e, |e| - 1)
    ensures pv[AtOf(e, k + 1) := AtOf(e, k - 1)][e[k] := p][Head] == AtOf(r, |r| - 1)
  {
    var last := |r| - 1;
    if k == |e| - 1 {
      assert 0 < k ==> r[last] == e[k - 1];
    } else {
      assert k <= last && r[last] == e[last + 1];
    }
  }

  /** One step of BackwardDelete: the node at position `j` of the
      shortened ring points back at its new predecessor. */
  lemma BackwardDeleteAt(pv: seq<int>, e: seq<int>, k: int, r: seq<int>, p: int, j: int)
    requires Backward(pv, e) && Skips(e, k, r)
    requires UniqueAt(e, k) && (k + 1 < |e| ==> UniqueAt(e, k + 1))
    requires 0 <= j < |r|
    ensures var pv' := pv[AtOf(e, k + 1) := AtOf(e, k - 1)][e[k] := p];
            Head < r[j] < |pv'| && pv'[r[j]] == AtOf(r, j - 1)
  {
    var before, after := AtOf(e, k - 1), AtOf(e, k + 1);
    var pv' := pv[after := before][e[k] := p];
    if j < k {
      assert r[j] == e[j] != e[k];
      assert e[j] != after;
      assert pv'[r[j]] == pv[e[j]] == AtOf(e, j - 1);
      assert j > 0 ==> r[j - 1] == e[j - 1];
    } else if j == k {
      assert r[j] == e[k + 1] == after != e[k];
      assert k > 0 ==> r[k - 1] == e[k - 1];
    } else {
      assert r[j] == e[j + 1] != e[k];
      assert e[j + 1] != after;
      assert pv'[r[j]] == pv[e[j + 1]] == e[j];
      assert r[j - 1] == e[j];
    }
  }

  /** The pointer writes of list_delete turn a ring with order `e` into
      one with order `Without(e, item)`, whatever is written into the
      unlinked item's own pointers. */
  lemma RingDelete(nx: seq<int>, pv: seq<int>, e: seq<int>, item: int, p: int, n: int)
    requires IsRing(nx, pv, e)
    requires item in e
    ensures var after, before := nx[item], pv[item];
            0 <= after < |nx| && 0 <= before < |nx| &&
            IsRing(nx[before := after][item := n], pv[after := before][item := p], Without(e, item))
  {
    var k: int := IndexOf(e, item);
    var r := Without(e, item);
    assert r == e[..k] + e[k + 1..];
    assert Skips(e, k, r);
    assert nx[item] == AtOf(e, k + 1) && pv[item] == AtOf(e, k - 1);
    DistinctUnique(e, k);
    if k > 0 { DistinctUnique(e, k - 1); }
    if k + 1 < |e| { DistinctUnique(e, k + 1); }
    ForwardDelete(nx, e, k, r, n);
    BackwardDelete(pv, e, k, r, p);
    WithoutSpec(e, item);
  }

  class Ring {
    const prev: array<int>
    const next: array<int>
    /** The linked nodes in ring order, starting after the sentinel. */
    ghost var Elems: seq<int>

    /** The number of nodes of the arena, the sentinel included. */
    function Capacity(): nat
      reads this
    {
      next.Length
    }

    /** The two link tables are separate and form a ring with order
        `Elems`. */
    ghost predicate Valid()
      reads this, prev, next
    {
      prev != next && IsRing(next[..], prev[..], Elems)
    }

    /** LIST_HEAD: a statically initialised, empty list whose nodes'
        pointers start out null. */
    constructor (capacity: nat)
      requires capacity >= 1
      ensures Valid() && Elems == [] && Capacity() == capacity
      ensures fresh(prev) && fresh(next)
    {
      prev := new int[capacity](_ => Null);
      next := new int[capacity](_ => Null);
      new;
      prev[Head] := Head;
      next[Head] := Head;
      Elems := [];
    }

    /** list_initialize: the sentinel points to itself; nodes that were
        linked are orphaned, their pointers untouched. */
    method Initialize()
      requires prev != next && prev.Length == next.Length >= 1
      modifies this, prev, next
      ensures Valid() && Elems == []
      ensures forall i | 0 <= i < next.Length && i != Head ::
                prev[i] == old(prev[i]) && next[i] == old(next[i])
    {
      prev[Head] := Head;
      next[Head] := Head;
      Elems := [];
    }

    /** list_add_head: `item` becomes the first node after the sentinel. */
    method AddHead(item: int)
      requires Valid()
      requires Head < item < Capacity() && item !in Elems
      modifies this, prev, next
      ensures Valid()
      ensures Elems == [item] + old(Elems)
      ensures forall i | Head < i < Capacity() && i != item && i !in old(Elems) ::
                prev[i] == old(prev[i]) && next[i] == old(next[i])
    {
      RingAddHead(next[..], prev[..], Elems, item);
      var first := next[Head];
      next[item] := first;
      prev[item] := Head;
      prev[first] := item;
      next[Head] := item;
      Elems := [item] + Elems;
      assert next[..] == old(next[..])[item := first][Head := item];
      assert prev[..] == old(prev[..])[item := Head][first := item];
    }

    /** list_add_tail: `item` becomes the last node before the sentinel. */
    method AddTail(item: int)
      requires Valid()
      requires Head < item < Capacity() && item !in Elems
      modifies this, prev, next
      ensures Valid()
      ensures Elems == old(Elems) + [item]
      ensures forall i | Head < i < Capacity() && i != item && i !in old(Elems) ::
                prev[i] == old(prev[i]) && next[i] == old(next[i])
    {
      RingAddTail(next[..], prev[..], Elems, item);
      var last := prev[Head];
      prev[item] := last;
      next[item] := Head;
      next[last] := item;
      prev[Head] := item;
      Elems := Elems + [item];
      assert next[..] == old(next[..])[item := Head][last := item];
      assert prev[..] == old(prev[..])[item := last][Head := item];
    }

    /** list_delete: unlinks `item`, keeps the others in order and nulls
        the item's own pointers. */
    method Delete(item: int)
      requires Valid()
      requires item in Elems
      modifies this, prev, next
      ensures Valid()
      ensures Elems == Without(old(Elems), item)
      ensures prev[item] == Null && next[item] == Null
      ensures forall i | Head < i < Capacity() && i != item && i !in old(Elems) ::
                prev[i] == old(prev[i]) && next[i] == old(next[i])
    {
      RingDelete(next[..], prev[..], Elems, item, Null, Null);
      var after := next[item];
      var before := prev[item];
      prev[after] := before;
      next[before] := after;
      prev[item] := Null;
      next[item] := Null;
      Elems := Without(Elems, item);
      assert next[..] == old(next[..])[before := after][item := Null];
      assert prev[..] == old(prev[..])[after := before][item := Null];
    }

    /** list_next: the successor of `item`, or null after the last node. */
    function Next(item: int): (r: int)
      requires Valid()
      requires item == Head || item in Elems
      reads this, prev, next
      ensures item == Head ==> r == (if Elems == [] then Null else Elems[0])
      ensures item in Elems ==>
                var k := IndexOf(Elems, item);
                r == (if k == |Elems| - 1 then Null else Elems[k + 1])
    {
      if next[item] != Head then next[item] else Null
    }

    /** list_is_empty: 1 when no node is linked, else 0. */
    function IsEmpty(): (r: int)
      requires Valid()
      reads this, prev, next
      ensures r == 1 || r == 0
      ensures r == 1 <==> |Elems| == 0
    {
      if next[Head] == Head then 1 else 0
    }

    /** list_length: counts the nodes met by following `next` from the
        sentinel until it comes back (list_for_every). */
    method Length() returns (cnt: nat)
      requires Valid()
      ensures cnt == |Elems|
    {
      cnt := 0;
      var node := next[Head];
      while node != Head
        invariant cnt <= |Elems|
        invariant node == if cnt < |Elems| then Elems[cnt] else Head
        decreases |Elems| - cnt
      {
        cnt := cnt + 1;
        node := next[node];
      }
    }
  }
}
