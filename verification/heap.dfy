/** The array-backed binary min-heap keyed by an integer `time`.

    The C struct stores a fixed array of `MaxPoints` nodes plus a `size`; only
    the occupied prefix `heap[0..size)` is ever read, so the model keeps that
    prefix as a sequence and `size` is its length. */
module Heap {
  import opened Wrappers

  /** One heap entry: a delivery address and its time cost. */
  datatype HeapNode = HeapNode(address: string, time: int)

  /** The heap: its occupied slots, in array order. */
  datatype MinHeap = MinHeap(heap: seq<HeapNode>) {
    function Size(): nat { |heap| }

    /** Within capacity and heap-ordered. */
    ghost predicate Valid() {
      |heap| <= MaxPoints && IsHeap(heap)
    }
  }

  function Parent(i: nat): nat
    requires 0 < i
  {
    (i - 1) / 2
  }

  function Left(i: nat): nat { 2 * i + 1 }

  function Right(i: nat): nat { 2 * i + 2 }

  /** Every non-root entry has a time no smaller than its parent's. */
  ghost predicate IsHeap(h: seq<HeapNode>) {
    forall i :: 0 < i < |h| ==> h[Parent(i)].time <= h[i].time
  }

  /** Heap order holds except possibly between `k` and its parent, and the
      parent of `k` is no larger than the children of `k`: the shape sift-up
      works on. */
  ghost predicate HeapExceptUp(h: seq<HeapNode>, k: nat) {
    && k < |h|
    && (forall i :: 0 < i < |h| && i != k ==> h[Parent(i)].time <= h[i].time)
    && (forall i :: 0 < i < |h| && Parent(i) == k && 0 < k ==> h[Parent(k)].time <= h[i].time)
  }

  /** Heap order holds except possibly between `k` and its children, and the
      parent of `k` is no larger than the children of `k`: the shape sift-down
      works on. */
  ghost predicate HeapExceptDown(h: seq<HeapNode>, k: nat) {
    && (forall i :: 0 < i < |h| && Parent(i) != k ==> h[Parent(i)].time <= h[i].time)
    && (forall i :: 0 < i < |h| && Parent(i) == k && 0 < k ==> h[Parent(k)].time <= h[i].time)
  }

  /** No entry of `m` has a time below `t`. */
  ghost predicate AtMostAll(t: int, m: multiset<HeapNode>) {
    forall e :: e in m ==> t <= e.time
  }

  /** Times never decrease along `s`. */
  ghost predicate SortedByTime(s: seq<HeapNode>) {
    forall i, j :: 0 <= i < j < |s| ==> s[i].time <= s[j].time
  }

  /** Exchanges two slots and leaves every other slot as it was. */
  function Swap(h: seq<HeapNode>, a: nat, b: nat): (r: seq<HeapNode>)
    requires a < |h| && b < |h|
    ensures |r| == |h| && r[a] == h[b] && r[b] == h[a]
    ensures forall i :: 0 <= i < |h| && i != a && i != b ==> r[i] == h[i]
    ensures multiset(r) == multiset(h)
  {
    h[a := h[b]][b := h[a]]
  }

  /** Sift-up: while the parent of `idx` has a strictly larger time, swap the
      two and move to the parent. */
  method HeapifyUp(h: seq<HeapNode>, idx: nat) returns (r: seq<HeapNode>)
    requires HeapExceptUp(h, idx)
    ensures |r| == |h| && IsHeap(r)
    ensures multiset(r) == multiset(h)
  {
    r := h;
    var k := idx;
    while 0 < k && r[Parent(k)].time > r[k].time
      invariant HeapExceptUp(r, k)
      invariant |r| == |h| && multiset(r) == multiset(h)
      decreases k
    {
      r := Swap(r, Parent(k), k);
      k := Parent(k);
    }
  }

  /** Sift-down: swap `idx` with its smaller child (left wins a tie, `idx`
      wins over an equal child) and continue from that child. */
  method HeapifyDown(h: seq<HeapNode>, idx: nat) returns (r: seq<HeapNode>)
    requires HeapExceptDown(h, idx)
    ensures |r| == |h| && IsHeap(r)
    ensures multiset(r) == multiset(h)
    decreases |h| - idx
  {
    var smallest := idx;
    if Left(idx) < |h| && h[Left(idx)].time < h[smallest].time {
      smallest := Left(idx);
    }
    if Right(idx) < |h| && h[Right(idx)].time < h[smallest].time {
      smallest := Right(idx);
    }
    if smallest != idx {
      var s := Swap(h, idx, smallest);
      SiftDownStep(h, idx, smallest);
      r := HeapifyDown(s, smallest);
    } else {
      SiftDownDone(h, idx);
      r := h;
    }
  }

  /** Swapping `k` with its smallest child, when that child is strictly
      smaller, moves the only possible violation down to the child. */
  lemma SiftDownStep(h: seq<HeapNode>, k: nat, c: nat)
    requires HeapExceptDown(h, k)
    requires c < |h| && (c == Left(k) || c == Right(k))
    requires h[c].time < h[k].time
    requires Left(k) < |h| ==> h[c].time <= h[Left(k)].time
    requires Right(k) < |h| ==> h[c].time <= h[Right(k)].time
    ensures HeapExceptDown(Swap(h, k, c), c)
  {
  }

  /** When no child of `k` is smaller than `k`, the sequence is a heap. */
  lemma SiftDownDone(h: seq<HeapNode>, k: nat)
    requires HeapExceptDown(h, k)
    requires Left(k) < |h| ==> h[k].time <= h[Left(k)].time
    requires Right(k) < |h| ==> h[k].time <= h[Right(k)].time
    ensures IsHeap(h)
  {
  }

  /** Writes the new entry into the first free slot and sifts it up. */
  method Push(h: MinHeap, address: string, time: int) returns (r: MinHeap)
    requires h.Valid() && h.Size() < MaxPoints
    ensures r.Valid() && r.Size() == h.Size() + 1
    ensures multiset(r.heap) == multiset(h.heap) + multiset{HeapNode(address, time)}
  {
    var s := h.heap + [HeapNode(address, time)];
    var t := HeapifyUp(s, |h.heap|);
    r := MinHeap(t);
  }

  /** Takes the root, moves the last entry into the root slot, shrinks the
      heap and sifts the new root down. */
  method Pop(h: MinHeap) returns (root: HeapNode, r: MinHeap)
    requires h.Valid() && 0 < h.Size()
    ensures r.Valid() && r.Size() == h.Size() - 1
    ensures multiset(r.heap) + multiset{root} == multiset(h.heap)
    ensures AtMostAll(root.time, multiset(h.heap))
  {
    root := h.heap[0];
    RootIsMinimum(h.heap);
    var last := |h.heap| - 1;
    var s := h.heap[0 := h.heap[last]][..last];
    MoveLastToRoot(h.heap);
    var t := HeapifyDown(s, 0);
    r := MinHeap(t);
  }

  /** Overwriting the root with the last entry and dropping the last slot
      removes exactly the root and leaves a violation only at the root. */
  lemma MoveLastToRoot(h: seq<HeapNode>)
    requires 0 < |h| && IsHeap(h)
    ensures var s := h[0 := h[|h| - 1]][..|h| - 1];
      HeapExceptDown(s, 0) && multiset(s) + multiset{h[0]} == multiset(h)
  {
    var last := |h| - 1;
    var s := h[0 := h[last]][..last];
    if 0 < last {
      assert h == [h[0]] + h[1..last] + [h[last]];
      assert s == [h[last]] + h[1..last];
    }
    forall i | 0 < i < |s| && Parent(i) != 0
      ensures s[Parent(i)].time <= s[i].time
    {
      assert s[i] == h[i] && s[Parent(i)] == h[Parent(i)];
    }
  }

  /** The root of a heap-ordered sequence has the smallest time. */
  lemma RootIsMinimum(h: seq<HeapNode>)
    requires 0 < |h| && IsHeap(h)
    ensures AtMostAll(h[0].time, multiset(h))
  {
    forall e | e in multiset(h)
      ensures h[0].time <= e.time
    {
      var i :| 0 <= i < |h| && h[i] == e;
      RootBelow(h, i);
    }
  }

  lemma {:induction false} RootBelow(h: seq<HeapNode>, i: nat)
    requires i < |h| && IsHeap(h)
    ensures h[0].time <= h[i].time
    decreases i
  {
    if 0 < i {
      RootBelow(h, Parent(i));
    }
  }

  /** Pops until the heap is empty, collecting the popped entries in order. */
  method Drain(h: MinHeap) returns (out: seq<HeapNode>)
    requires h.Valid()
    ensures multiset(out) == multiset(h.heap)
    ensures SortedByTime(out)
  {
    out := [];
    var cur := h;
    while 0 < cur.Size()
      invariant cur.Valid()
      invariant multiset(out) + multiset(cur.heap) == multiset(h.heap)
      invariant SortedByTime(out)
      invariant forall i :: 0 <= i < |out| ==> AtMostAll(out[i].time, multiset(cur.heap))
      decreases cur.Size()
    {
      var node;
      node, cur := Pop(cur);
      out := out + [node];
    }
  }
}
