/** HeapSift: sift-down (maxHeapify / minHeapify), sift-up
    (pushUpInMaxHeap / pushUpInMinHeap) and bottom-up construction
    (BuildMaxHeap / BuildMinHeap). One definition serves both heaps,
    parametrised by `Side`: the max heap keeps larger values above, the
    min heap smaller ones.

    The tree shape is the source's: on 0-based arrays the children of
    node `i` are `2 * i` and `2 * i + 1` and its parent is `i / 2`. Node 0
    thus has the single child 1, and nodes from 1 on form an ordinary
    1-indexed heap below it. Heap order is `h[j / 2]` above `h[j]` for every
    `1 <= j < end`. */
module HeapSift {
  import opened Order
  import opened HeapState

  /** `x` may sit above `y` in the heap of this side. */
  predicate Dominates(side: Side, x: int, y: int) {
    if side == Lower then y <= x else x <= y
  }

  /** Every parent-child edge inside `[0, end)` whose parent is at least
      `lo` and is not `x` is in heap order. */
  ghost predicate OrderedFrom(side: Side, h: seq<Entry>, lo: int, end: nat, x: int)
    requires end <= |h|
  {
    forall j :: 1 <= j < end && lo <= j / 2 && j / 2 != x ==>
      Dominates(side, h[j / 2].value, h[j].value)
  }

  /** The parent of `x` dominates the children of `x`, so `x` may be
      replaced by any of them. */
  ghost predicate GrandOk(side: Side, h: seq<Entry>, lo: int, end: nat, x: nat)
    requires end <= |h|
  {
    1 <= x < end && lo <= x / 2 ==>
      forall j :: 1 <= j < end && j / 2 == x ==> Dominates(side, h[x / 2].value, h[j].value)
  }

  /** Heap order everywhere except on the edges touching `x`. */
  ghost predicate HeapBut(side: Side, h: seq<Entry>, x: nat) {
    forall j :: 1 <= j < |h| && j != x && j / 2 != x ==>
      Dominates(side, h[j / 2].value, h[j].value)
  }

  ghost predicate IsHeap(side: Side, h: seq<Entry>) {
    OrderedFrom(side, h, 0, |h|, -1)
  }

  /** The root of a heap dominates every entry. */
  lemma {:induction false} RootDominates(side: Side, h: seq<Entry>, j: nat)
    requires IsHeap(side, h) && j < |h|
    ensures Dominates(side, h[0].value, h[j].value)
    decreases j
  {
    if j > 0 {
      RootDominates(side, h, j / 2);
    }
  }

  /** maxHeapify / minHeapify on the heap alone: swap node `i` with its
      dominant child while a child strictly dominates it. Only positions
      in `[i, end)` move. */
  function SiftDownHeap(side: Side, h: seq<Entry>, i: nat, end: nat): (r: seq<Entry>)
    requires end <= |h|
    ensures |r| == |h|
    decreases end - i
  {
    var top := DominantChild(side, h, i, end);
    if top != i then
      SiftDownHeap(side, h[top := h[i]][i := h[top]], top, end)
    else h
  }

  /** Sift-down only rearranges the heap: its entries, and so its values,
      are kept. */
  lemma {:induction false} SiftDownContents(side: Side, h: seq<Entry>, i: nat, end: nat)
    requires end <= |h|
    ensures multiset(SiftDownHeap(side, h, i, end)) == multiset(h)
    ensures multiset(Vals(SiftDownHeap(side, h, i, end))) == multiset(Vals(h))
    decreases end - i
  {
    var top := DominantChild(side, h, i, end);
    if top != i {
      SwapKeepsEntries(h, top, i);
      SiftDownContents(side, h[top := h[i]][i := h[top]], top, end);
    }
  }

  /** maxHeapify / minHeapify on the queue: the heap moves as
      `SiftDownHeap` says, each swap re-pointing the two owners. */
  function SiftDown(q: Queue, side: Side, i: nat, end: nat): (r: Queue)
    requires end <= |HeapOf(q, side)| && SlotsInRange(q)
    ensures HeapOf(r, side) == SiftDownHeap(side, HeapOf(q, side), i, end)
    ensures HeapOf(r, side.Other()) == HeapOf(q, side.Other())
    ensures SameWindow(q, r) && SlotsInRange(r)
    ensures Coherent(q) ==> Coherent(r)
    decreases end - i
  {
    var h := HeapOf(q, side);
    var top := DominantChild(side, h, i, end);
    if top != i then SiftDown(SwapIn(q, side, top, i), side, top, end) else q
  }

  /** The node among `i` and its children below `end` that the heap wants
      on top; ties keep `i`, and then the left child. */
  function DominantChild(side: Side, h: seq<Entry>, i: nat, end: nat): (top: nat)
    requires end <= |h|
    ensures top == i || (i < top < end && top / 2 == i)
    ensures top < end ==> i < end
    ensures i < end ==> forall j :: 1 <= j < end && j / 2 == i ==> Dominates(side, h[top].value, h[j].value)
    ensures i < end ==> Dominates(side, h[top].value, h[i].value)
    ensures top != i ==> !Dominates(side, h[i].value, h[top].value)
  {
    var left, right := 2 * i, 2 * i + 1;
    var top := if left < end && !Dominates(side, h[i].value, h[left].value) then left else i;
    if right < end && !Dominates(side, h[top].value, h[right].value) then right else top
  }

  /** Sift-down restores heap order below `lo` when only node `i` may be out
      of place: given every edge from a parent at least `lo` other than
      `i` in order, and `i`'s parent dominating `i`'s children, afterwards
      every edge from a parent at least `lo` is in order. */
  lemma {:induction false} SiftDownOrders(side: Side, h: seq<Entry>, i: nat, end: nat, lo: nat)
    requires end <= |h| && lo <= i
    requires OrderedFrom(side, h, lo, end, i)
    requires GrandOk(side, h, lo, end, i)
    ensures OrderedFrom(side, SiftDownHeap(side, h, i, end), lo, end, -1)
    decreases end - i
  {
    var top := DominantChild(side, h, i, end);
    if top != i {
      SiftDownStep(side, h, i, top, end, lo);
      SiftDownOrders(side, h[top := h[i]][i := h[top]], top, end, lo);
    }
  }

  /** One swap of sift-down moves the out-of-place node to its dominant
      child. */
  lemma SiftDownStep(side: Side, h: seq<Entry>, i: nat, top: nat, end: nat, lo: nat)
    requires end <= |h| && lo <= i < top < end && top / 2 == i
    requires OrderedFrom(side, h, lo, end, i) && GrandOk(side, h, lo, end, i)
    requires forall j :: 1 <= j < end && j / 2 == i ==> Dominates(side, h[top].value, h[j].value)
    requires Dominates(side, h[top].value, h[i].value)
    ensures OrderedFrom(side, h[top := h[i]][i := h[top]], lo, end, top)
    ensures GrandOk(side, h[top := h[i]][i := h[top]], lo, end, top)
  {
    var h1 := h[top := h[i]][i := h[top]];
    forall j | 1 <= j < end && lo <= j / 2 && j / 2 != top
      ensures Dominates(side, h1[j / 2].value, h1[j].value)
    {
      if j / 2 == i {
        if j != top {
          assert h1[j] == h[j];
        }
      } else if j == i {
        assert h1[j / 2] == h[j / 2];
      } else {
        assert j != top;
        assert h1[j] == h[j] && h1[j / 2] == h[j / 2];
      }
    }
    forall j | 1 <= j < end && j / 2 == top
      ensures Dominates(side, h1[top / 2].value, h1[j].value)
    {
      assert h1[j] == h[j];
    }
  }

  /** Where sift-up leaves a heap: the rearranged heap and the position
      the moved entry stopped at. */
  datatype Rise = Rise(heap: seq<Entry>, at: nat)

  /** pushUpInMaxHeap / pushUpInMinHeap on the heap alone: swap node `i`
      with its parent while it dominates or ties the parent. `end` only
      bounds the start node, as in the source. The entry that started at
      `i` ends at `at`. */
  function SiftUpHeap(side: Side, h: seq<Entry>, i: nat, end: nat): (r: Rise)
    requires i < |h|
    ensures |r.heap| == |h| && r.at < |h| && r.heap[r.at] == h[i]
    decreases i
  {
    if i >= end || i == 0 then Rise(h, i)
    else
      var parent := i / 2;
      if Dominates(side, h[i].value, h[parent].value) then
        SiftUpHeap(side, h[i := h[parent]][parent := h[i]], parent, end)
      else Rise(h, i)
  }

  /** Sift-up only rearranges the heap: its entries, and so its values,
      are kept. */
  lemma {:induction false} SiftUpContents(side: Side, h: seq<Entry>, i: nat, end: nat)
    requires i < |h|
    ensures multiset(SiftUpHeap(side, h, i, end).heap) == multiset(h)
    ensures multiset(Vals(SiftUpHeap(side, h, i, end).heap)) == multiset(Vals(h))
    decreases i
  {
    if i < end && i != 0 {
      var parent := i / 2;
      if Dominates(side, h[i].value, h[parent].value) {
        SwapKeepsEntries(h, i, parent);
        SiftUpContents(side, h[i := h[parent]][parent := h[i]], parent, end);
      }
    }
  }

  /** pushUpInMaxHeap / pushUpInMinHeap on the queue: the heap moves as
      `SiftUpHeap` says, each swap re-pointing the two owners. */
  function SiftUp(q: Queue, side: Side, i: nat, end: nat): (r: Queue)
    requires i < |HeapOf(q, side)| && SlotsInRange(q)
    ensures HeapOf(r, side) == SiftUpHeap(side, HeapOf(q, side), i, end).heap
    ensures HeapOf(r, side.Other()) == HeapOf(q, side.Other())
    ensures SameWindow(q, r) && SlotsInRange(r)
    ensures Coherent(q) ==> Coherent(r)
    decreases i
  {
    if i >= end || i == 0 then q
    else
      var h := HeapOf(q, side);
      var parent := i / 2;
      if Dominates(side, h[i].value, h[parent].value) then
        SiftUp(SwapIn(q, side, i, parent), side, parent, end)
      else q
  }

  /** The owner of the moved entry points at the position sift-up left it
      at, which is how mqUpdate finds where to sift down from. */
  lemma RisePosition(q: Queue, side: Side, i: nat, end: nat, c: nat)
    requires Coherent(q) && SlotsInRange(q) && i < |HeapOf(q, side)| && HeapOf(q, side)[i].slot == c
    ensures var r := SiftUp(q, side, i, end);
      && c < |r.circular| && r.circular[c].side == side
      && r.circular[c].index == SiftUpHeap(side, HeapOf(q, side), i, end).at
  {
    var r := SiftUp(q, side, i, end);
    CoherentEntry(r, side, SiftUpHeap(side, HeapOf(q, side), i, end).at);
  }

  /** Sift-up moves an overwritten entry toward the root. Starting from
      heap order everywhere except on the edges touching `i`, it stops at
      a position `at` where only the edges to that node's children can
      still be out of order, and its parent dominates them. An entry that
      dominates the whole heap rises to the root. */
  lemma {:induction false} SiftUpOrders(side: Side, h: seq<Entry>, i: nat, end: nat)
    requires i < |h| <= end
    requires HeapBut(side, h, i)
    requires GrandOk(side, h, 0, |h|, i)
    ensures var r := SiftUpHeap(side, h, i, end);
      && OrderedFrom(side, r.heap, 0, |h|, r.at)
      && GrandOk(side, r.heap, 0, |h|, r.at)
      && ((forall k :: 0 <= k < |h| ==> Dominates(side, h[i].value, h[k].value)) ==> r.at == 0)
    decreases i
  {
    if i != 0 {
      var p := i / 2;
      if Dominates(side, h[i].value, h[p].value) {
        SiftUpStep(side, h, i);
        if forall k :: 0 <= k < |h| ==> Dominates(side, h[i].value, h[k].value) {
          SwapKeepsDominator(side, h, i, p);
        }
        SiftUpOrders(side, h[i := h[p]][p := h[i]], p, end);
      } else {
        SiftUpStop(side, h, i);
      }
    } else {
      SiftUpStop(side, h, i);
    }
  }

  /** Sift-up stops at the top, or below a parent that strictly dominates:
      then every edge but those to the node's children is in order. */
  lemma SiftUpStop(side: Side, h: seq<Entry>, i: nat)
    requires i < |h| && HeapBut(side, h, i)
    requires i == 0 || !Dominates(side, h[i].value, h[i / 2].value)
    ensures OrderedFrom(side, h, 0, |h|, i)
  {
  }

  /** One swap of sift-up moves the out-of-place node to its parent. */
  lemma SiftUpStep(side: Side, h: seq<Entry>, i: nat)
    requires 1 <= i < |h|
    requires HeapBut(side, h, i) && GrandOk(side, h, 0, |h|, i)
    requires Dominates(side, h[i].value, h[i / 2].value)
    ensures HeapBut(side, h[i := h[i / 2]][i / 2 := h[i]], i / 2)
    ensures GrandOk(side, h[i := h[i / 2]][i / 2 := h[i]], 0, |h|, i / 2)
  {
    var p := i / 2;
    var h1 := h[i := h[p]][p := h[i]];
    forall j | 1 <= j < |h1| && j != p && j / 2 != p
      ensures Dominates(side, h1[j / 2].value, h1[j].value)
    {
      if j / 2 == i {
        assert h1[j] == h[j] && h1[i] == h[p];
      } else {
        assert j != i;
        assert h1[j] == h[j] && h1[j / 2] == h[j / 2];
      }
    }
    forall j | 1 <= j < |h1| && j / 2 == p && 1 <= p
      ensures Dominates(side, h1[p / 2].value, h1[j].value)
    {
      assert h1[p / 2] == h[p / 2];
      assert Dominates(side, h[p / 2].value, h[p].value);
      if j != i {
        assert h1[j] == h[j];
        assert Dominates(side, h[p].value, h[j].value);
      }
    }
  }

  /** An entry dominating a whole heap still does after an exchange. */
  lemma SwapKeepsDominator(side: Side, h: seq<Entry>, i: nat, p: nat)
    requires i < |h| && p < |h|
    requires forall k :: 0 <= k < |h| ==> Dominates(side, h[i].value, h[k].value)
    ensures var h1 := h[i := h[p]][p := h[i]];
      forall k :: 0 <= k < |h1| ==> Dominates(side, h1[p].value, h1[k].value)
  {
    var h1 := h[i := h[p]][p := h[i]];
    forall k | 0 <= k < |h1|
      ensures Dominates(side, h1[p].value, h1[k].value)
    {
      assert h1[k] == h[k] || h1[k] == h[i] || h1[k] == h[p];
    }
  }

  /** BuildMaxHeap / BuildMinHeap: sift down every node from `end / 2` to 0,
      establishing heap order on `[0, end)`. */
  method BuildHeap(q: Queue, side: Side, end: nat) returns (r: Queue)
    requires end <= |HeapOf(q, side)| && SlotsInRange(q)
    ensures SameWindow(q, r) && SlotsInRange(r)
    ensures HeapOf(r, side.Other()) == HeapOf(q, side.Other())
    ensures multiset(HeapOf(r, side)) == multiset(HeapOf(q, side))
    ensures multiset(Vals(HeapOf(r, side))) == multiset(Vals(HeapOf(q, side)))
    ensures OrderedFrom(side, HeapOf(r, side), 0, end, -1)
    ensures Coherent(q) ==> Coherent(r)
  {
    r := q;
    var i: int := end / 2;
    while i >= 0
      invariant -1 <= i <= end / 2
      invariant SameWindow(q, r) && SlotsInRange(r)
      invariant HeapOf(r, side.Other()) == HeapOf(q, side.Other())
      invariant multiset(HeapOf(r, side)) == multiset(HeapOf(q, side))
      invariant multiset(Vals(HeapOf(r, side))) == multiset(Vals(HeapOf(q, side)))
      invariant OrderedFrom(side, HeapOf(r, side), i + 1, end, -1)
      invariant Coherent(q) ==> Coherent(r)
    {
      SiftDownOrders(side, HeapOf(r, side), i, end, i);
      SiftDownContents(side, HeapOf(r, side), i, end);
      r := SiftDown(r, side, i, end);
      i := i - 1;
    }
  }
}
