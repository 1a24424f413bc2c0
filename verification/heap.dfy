/** The bounded min-heap of the SORT decoder (src/decoder.c): sift_down,
    heapify and insert on an array of pos_counter_t keyed by counter, with
    LCHILD(i) = 2i + 1, RCHILD(i) = 2i + 2 and PARENT(i) = (i - 1) / 2 in C's
    truncating division. The heap array is exactly GRAY_SIZE entries long, and
    every call works on the whole of it (end = size - 1). */
module Heap {
  import opened Macros

  /** pos_counter_t: block index, position and counter of one bit. */
  datatype PosCounter = PosCounter(index: nat, position: nat, counter: int)

  /** PARENT(i) with C's division, which truncates toward zero: PARENT(0) is 0. */
  function Parent(i: int): (p: int)
    ensures i >= 1 ==> 0 <= p < i && (2 * p + 1 == i || 2 * p + 2 == i)
    ensures i == 0 ==> p == 0
  {
    if i >= 1 then (i - 1) / 2 else 0
  }

  /** Node i is no larger than the children it has in a. */
  ghost predicate NodeOk(a: seq<PosCounter>, i: int)
    requires 0 <= i < |a|
  {
    (2 * i + 1 < |a| ==> a[i].counter <= a[2 * i + 1].counter)
    && (2 * i + 2 < |a| ==> a[i].counter <= a[2 * i + 2].counter)
  }

  /** Every node from lo on satisfies the heap order. */
  ghost predicate HeapFrom(a: seq<PosCounter>, lo: int)
  {
    forall i :: 0 <= lo <= i < |a| ==> NodeOk(a, i)
  }

  ghost predicate IsMinHeap(a: seq<PosCounter>)
  {
    HeapFrom(a, 0)
  }

  /** The root of a min-heap holds a smallest counter. */
  lemma {:induction false} RootIsMin(a: seq<PosCounter>, i: nat)
    requires IsMinHeap(a) && i < |a|
    ensures a[0].counter <= a[i].counter
    decreases i
  {
    if i > 0 {
      var p := Parent(i);
      RootIsMin(a, p);
      assert NodeOk(a, p);
    }
  }

  lemma RootIsMinAll(a: seq<PosCounter>)
    requires IsMinHeap(a) && |a| > 0
    ensures forall e :: e in a ==> a[0].counter <= e.counter
  {
    forall e | e in a ensures a[0].counter <= e.counter {
      var i :| 0 <= i < |a| && a[i] == e;
      RootIsMin(a, i);
    }
  }

  // ---------------------------------------------------------------------------
  // sift_down
  // ---------------------------------------------------------------------------

  /** The index sift_down swaps root with: the first of root, left child,
      right child holding the smallest counter (children win only on a
      strictly smaller counter). */
  function SwapTarget(a: seq<PosCounter>, root: nat): (t: nat)
    requires 2 * root + 1 < |a|
    ensures t == root || t == 2 * root + 1 || (t == 2 * root + 2 && t < |a|)
    ensures a[t].counter <= a[root].counter && a[t].counter <= a[2 * root + 1].counter
    ensures 2 * root + 2 < |a| ==> a[t].counter <= a[2 * root + 2].counter
    ensures t == root <==> NodeOk(a, root)
  {
    var child := 2 * root + 1;
    var t1 := if a[root].counter > a[child].counter then child else root;
    if child + 1 < |a| && a[t1].counter > a[child + 1].counter then child + 1 else t1
  }

  /** What holds while the sifted element sits at root: every other node
      from start on is ordered, and root's parent is no larger than root's
      children. */
  ghost predicate Sifting(a: seq<PosCounter>, start: nat, root: nat)
    requires start <= root < |a|
  {
    (forall i :: start <= i < |a| && i != root ==> NodeOk(a, i))
    && (root > start ==>
          (2 * root + 1 < |a| ==> a[Parent(root)].counter <= a[2 * root + 1].counter)
          && (2 * root + 2 < |a| ==> a[Parent(root)].counter <= a[2 * root + 2].counter))
  }

  /** One swap of the sift_down loop keeps Sifting, one level down. */
  lemma SiftStep(a: seq<PosCounter>, start: nat, root: nat)
    requires start <= root && 2 * root + 1 < |a| && Sifting(a, start, root)
    requires SwapTarget(a, root) != root
    ensures var t := SwapTarget(a, root);
      start <= t < |a| && t > root && Parent(t) == root && Sifting(Swap(a, root, t), start, t)
  {
    var t := SwapTarget(a, root);
    var b := Swap(a, root, t);
    assert Parent(t) == root;
    forall i | start <= i < |b| && i != t ensures NodeOk(b, i) {
      if i == root {
        assert b[root] == a[t];
      } else if 2 * i + 1 == root || 2 * i + 2 == root {
        assert i == Parent(root) && root > start;
        assert NodeOk(a, i);
        assert b[i] == a[i] && b[root] == a[t];
        var sib := if 2 * i + 1 == root then 2 * i + 2 else 2 * i + 1;
        assert sib != root && sib != t ==> b[sib] == a[sib];
      } else {
        assert NodeOk(a, i);
        assert b[i] == a[i];
        assert 2 * i + 1 != t && 2 * i + 2 != t;
        assert 2 * i + 1 < |b| ==> b[2 * i + 1] == a[2 * i + 1];
        assert 2 * i + 2 < |b| ==> b[2 * i + 2] == a[2 * i + 2];
      }
    }
    assert NodeOk(a, t);
  }

  /** The sift_down loop from the current root on. */
  method SiftFrom(a: seq<PosCounter>, start: nat, root: nat) returns (r: seq<PosCounter>)
    requires start <= root < |a| && Sifting(a, start, root)
    ensures |r| == |a| && multiset(r) == multiset(a) && HeapFrom(r, start)
    ensures forall i :: 0 <= i < start ==> r[i] == a[i]
    decreases |a| - root
  {
    if 2 * root + 1 >= |a| {
      return a;
    }
    var t := SwapTarget(a, root);
    if t == root {
      return a;
    }
    SiftStep(a, start, root);
    r := SiftFrom(Swap(a, root, t), start, t);
  }

  /** sift_down(array, start, size - 1): given a heap below start, the nodes
      from start on form a heap, the elements are permuted and the entries
      before start are untouched. */
  method SiftDown(a: seq<PosCounter>, start: nat) returns (r: seq<PosCounter>)
    requires start < |a| && HeapFrom(a, start + 1)
    ensures |r| == |a| && multiset(r) == multiset(a) && HeapFrom(r, start)
    ensures forall i :: 0 <= i < start ==> r[i] == a[i]
  {
    r := SiftFrom(a, start, start);
  }

  // ---------------------------------------------------------------------------
  // heapify / insert
  // ---------------------------------------------------------------------------

  /** The nodes after PARENT(size - 1) have no children. */
  lemma LeavesAreHeap(a: seq<PosCounter>)
    requires |a| >= 1
    ensures HeapFrom(a, Parent(|a| - 1) + 1)
  {
  }

  /** heapify(array, size). */
  method Heapify(a: seq<PosCounter>) returns (r: seq<PosCounter>)
    requires |a| >= 1
    ensures |r| == |a| && multiset(r) == multiset(a) && IsMinHeap(r)
  {
    var start := Parent(|a| - 1);
    LeavesAreHeap(a);
    r := a;
    while start >= 0
      invariant -1 <= start < |a|
      invariant |r| == |a| && multiset(r) == multiset(a) && HeapFrom(r, start + 1)
    {
      r := SiftDown(r, start);
      start := start - 1;
    }
  }

  /** insert(array, pc, size): the root is replaced, and sifted down, only
      when pc's counter is strictly larger; the heap then holds the old
      contents without their minimum, plus pc. */
  method Insert(a: seq<PosCounter>, pc: PosCounter) returns (r: seq<PosCounter>)
    requires |a| >= 1 && IsMinHeap(a)
    ensures |r| == |a| && IsMinHeap(r)
    ensures a[0].counter < pc.counter ==> multiset(r) == multiset(a) - multiset{a[0]} + multiset{pc}
    ensures !(a[0].counter < pc.counter) ==> r == a
    ensures a[0].counter <= r[0].counter
  {
    if a[0].counter < pc.counter {
      var b := a[0 := pc];
      assert HeapFrom(b, 1) by {
        forall i | 1 <= i < |b| ensures NodeOk(b, i) {
          assert NodeOk(a, i);
        }
      }
      assert multiset(b) == multiset(a) - multiset{a[0]} + multiset{pc} by {
        assert a == [a[0]] + a[1..];
        assert b == [pc] + a[1..];
      }
      r := SiftDown(b, 0);
      assert r[0] in multiset(b);
      RootIsMinAll(a);
    } else {
      r := a;
    }
  }
}
