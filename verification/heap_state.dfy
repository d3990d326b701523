/** HeapState: the data of the dual-heap median queue and its three swap
    primitives. The ring buffer `circular` holds one `Slot` per window
    position; the lower half of the window lives in the max-heap
    `maxHeap`, the upper half in the min-heap `minHeap`. Each heap entry
    names its owning slot and each slot names the side and index of its
    entry, so an update finds the evicted value in O(1). */
module HeapState {
  import opened Order

  /** Which heap a slot's value currently lives in. */
  datatype Side = Lower | Upper {
    function Other(): Side {
      if this == Lower then Upper else Lower
    }
  }

  /** An element of either heap: a value and the ring-buffer slot that
      owns it. */
  datatype Entry = Entry(value: int, slot: nat)

  /** One position of the ring buffer: its value and where that value
      lives in the heaps. */
  datatype Slot = Slot(value: int, side: Side, index: nat)

  datatype Queue = Queue(
    circular: seq<Slot>,
    maxHeap: seq<Entry>,
    minHeap: seq<Entry>,
    size: nat,
    start: nat)

  function HeapOf(q: Queue, side: Side): seq<Entry> {
    if side == Lower then q.maxHeap else q.minHeap
  }

  function WithHeap(q: Queue, side: Side, h: seq<Entry>): Queue {
    if side == Lower then q.(maxHeap := h) else q.(minHeap := h)
  }

  /** The window's values, slot by slot. */
  function Values(circular: seq<Slot>): (vs: seq<int>)
    ensures |vs| == |circular|
    ensures forall i :: 0 <= i < |circular| ==> vs[i] == circular[i].value
  {
    seq(|circular|, i requires 0 <= i < |circular| => circular[i].value)
  }

  /** The values held by one heap, position by position: the projection
      `Values` makes of the window, taken here over heap entries, since an
      `Entry` and a `Slot` are different types with a `value` field each. */
  function Vals(h: seq<Entry>): (vs: seq<int>)
    ensures |vs| == |h|
    ensures forall i :: 0 <= i < |h| ==> vs[i] == h[i].value
  {
    seq(|h|, i requires 0 <= i < |h| => h[i].value)
  }

  /** Sizes fixed at creation: the max heap holds `size / 2 + 1` entries
      and the min heap the remaining ones. Only odd sizes of at least 3
      are supported. */
  ghost predicate Shape(q: Queue) {
    && q.size >= 3 && q.size % 2 == 1
    && |q.circular| == q.size
    && |q.maxHeap| == q.size / 2 + 1
    && |q.minHeap| == q.size - (q.size / 2 + 1)
    && q.start < q.size
  }

  /** Every heap entry names an existing slot. */
  ghost predicate SlotsInRange(q: Queue) {
    && (forall i :: 0 <= i < |q.maxHeap| ==> q.maxHeap[i].slot < |q.circular|)
    && (forall i :: 0 <= i < |q.minHeap| ==> q.minHeap[i].slot < |q.circular|)
  }

  /** Back-references agree in both directions. */
  ghost predicate Coherent(q: Queue) {
    EntriesLinked(q) && SlotsLinked(q)
  }

  /** Every entry's slot names that entry's side and index and holds its
      value. */
  ghost predicate EntriesLinked(q: Queue) {
    && (forall i :: 0 <= i < |q.maxHeap| ==>
          q.maxHeap[i].slot < |q.circular| &&
          q.circular[q.maxHeap[i].slot] == Slot(q.maxHeap[i].value, Lower, i))
    && (forall i :: 0 <= i < |q.minHeap| ==>
          q.minHeap[i].slot < |q.circular| &&
          q.circular[q.minHeap[i].slot] == Slot(q.minHeap[i].value, Upper, i))
  }

  /** Every slot's side and index name an entry owned by that slot. */
  ghost predicate SlotsLinked(q: Queue) {
    forall c :: 0 <= c < |q.circular| ==> Points(q, c)
  }

  /** Slot `c` names an entry that it owns. */
  ghost predicate Points(q: Queue, c: nat)
    requires c < |q.circular|
  {
    var s := q.circular[c];
    s.index < |HeapOf(q, s.side)| && HeapOf(q, s.side)[s.index].slot == c
  }

  /** `r` differs from `q` at most in the heaps and the slots' side and
      index fields. */
  ghost predicate SameWindow(q: Queue, r: Queue) {
    && r.size == q.size && r.start == q.start
    && |r.circular| == |q.circular|
    && |r.maxHeap| == |q.maxHeap| && |r.minHeap| == |q.minHeap|
    && Values(r.circular) == Values(q.circular)
  }

  /** swapInMaxHeap / swapInMinHeap: exchange entries `a` and `b` of one
      heap and re-point both owners. */
  function SwapIn(q: Queue, side: Side, a: nat, b: nat): (r: Queue)
    requires a < |HeapOf(q, side)| && b < |HeapOf(q, side)|
    requires SlotsInRange(q)
    ensures HeapOf(r, side) == HeapOf(q, side)[a := HeapOf(q, side)[b]][b := HeapOf(q, side)[a]]
    ensures HeapOf(r, side.Other()) == HeapOf(q, side.Other())
    ensures multiset(HeapOf(r, side)) == multiset(HeapOf(q, side))
    ensures multiset(Vals(HeapOf(r, side))) == multiset(Vals(HeapOf(q, side)))
    ensures SameWindow(q, r) && SlotsInRange(r)
    ensures Coherent(q) ==> Coherent(r)
  {
    var h := HeapOf(q, side);
    var h' := h[a := h[b]][b := h[a]];
    var c1 := q.circular[h'[a].slot := q.circular[h'[a].slot].(index := a)];
    var c2 := c1[h'[b].slot := c1[h'[b].slot].(index := b)];
    var r := WithHeap(q, side, h').(circular := c2);
    SwapKeepsEntries(h, a, b);
    SwapInFrame(q, side, a, b, r);
    SwapInCoherent(q, side, a, b, r);
    r
  }

  lemma SwapInFrame(q: Queue, side: Side, a: nat, b: nat, r: Queue)
    requires a < |HeapOf(q, side)| && b < |HeapOf(q, side)|
    requires SlotsInRange(q)
    requires var h := HeapOf(q, side);
      var h' := h[a := h[b]][b := h[a]];
      var c1 := q.circular[h'[a].slot := q.circular[h'[a].slot].(index := a)];
      var c2 := c1[h'[b].slot := c1[h'[b].slot].(index := b)];
      r == WithHeap(q, side, h').(circular := c2)
    ensures HeapOf(r, side) == HeapOf(q, side)[a := HeapOf(q, side)[b]][b := HeapOf(q, side)[a]]
    ensures HeapOf(r, side.Other()) == HeapOf(q, side.Other())
    ensures SameWindow(q, r) && SlotsInRange(r)
  {
    assert Values(r.circular) == Values(q.circular);
  }

  /** Exchanging two heap positions keeps the entries and their values. */
  lemma SwapKeepsEntries(h: seq<Entry>, a: nat, b: nat)
    requires a < |h| && b < |h|
    ensures multiset(h[a := h[b]][b := h[a]]) == multiset(h)
    ensures multiset(Vals(h[a := h[b]][b := h[a]])) == multiset(Vals(h))
  {
    assert Vals(h[a := h[b]][b := h[a]]) == Vals(h)[a := h[b].value][b := h[a].value];
    SwapContents(Vals(h), a, b);
    SwapContents(h, a, b);
  }

  lemma SwapInCoherent(q: Queue, side: Side, a: nat, b: nat, r: Queue)
    requires a < |HeapOf(q, side)| && b < |HeapOf(q, side)|
    requires SlotsInRange(q)
    requires var h := HeapOf(q, side);
      var h' := h[a := h[b]][b := h[a]];
      var c1 := q.circular[h'[a].slot := q.circular[h'[a].slot].(index := a)];
      var c2 := c1[h'[b].slot := c1[h'[b].slot].(index := b)];
      r == WithHeap(q, side, h').(circular := c2)
    ensures Coherent(q) ==> Coherent(r)
  {
    if Coherent(q) {
      SwapInEntries(q, side, a, b, r);
      SwapInSlots(q, side, a, b, r);
    }
  }

  lemma SwapInEntries(q: Queue, side: Side, a: nat, b: nat, r: Queue)
    requires a < |HeapOf(q, side)| && b < |HeapOf(q, side)|
    requires Coherent(q)
    requires var h := HeapOf(q, side);
      var h' := h[a := h[b]][b := h[a]];
      var c1 := q.circular[h'[a].slot := q.circular[h'[a].slot].(index := a)];
      var c2 := c1[h'[b].slot := c1[h'[b].slot].(index := b)];
      r == WithHeap(q, side, h').(circular := c2)
    ensures EntriesLinked(r)
  {
    var h := HeapOf(q, side);
    assert a != b ==> h[a].slot != h[b].slot;
  }

  lemma SwapInSlots(q: Queue, side: Side, a: nat, b: nat, r: Queue)
    requires a < |HeapOf(q, side)| && b < |HeapOf(q, side)|
    requires Coherent(q)
    requires var h := HeapOf(q, side);
      var h' := h[a := h[b]][b := h[a]];
      var c1 := q.circular[h'[a].slot := q.circular[h'[a].slot].(index := a)];
      var c2 := c1[h'[b].slot := c1[h'[b].slot].(index := b)];
      r == WithHeap(q, side, h').(circular := c2)
    ensures SlotsLinked(r)
  {
    var h := HeapOf(q, side);
    assert a != b ==> h[a].slot != h[b].slot;
    forall c | 0 <= c < |r.circular|
      ensures Points(r, c)
    {
      assert Points(q, c);
    }
  }

  /** The back-reference of the entry at position `k` of one heap. */
  lemma CoherentEntry(q: Queue, side: Side, k: nat)
    requires Coherent(q) && k < |HeapOf(q, side)|
    ensures HeapOf(q, side)[k].slot < |q.circular|
    ensures q.circular[HeapOf(q, side)[k].slot] == Slot(HeapOf(q, side)[k].value, side, k)
  {
  }

  /** swapBetweenHeaps: exchange entry `iMax` of the max heap with entry
      `iMin` of the min heap, re-pointing both owners' index and side. */
  function SwapBetween(q: Queue, iMax: nat, iMin: nat): (r: Queue)
    requires iMax < |q.maxHeap| && iMin < |q.minHeap|
    requires SlotsInRange(q)
    ensures r.maxHeap == q.maxHeap[iMax := q.minHeap[iMin]]
    ensures r.minHeap == q.minHeap[iMin := q.maxHeap[iMax]]
    ensures multiset(Vals(r.maxHeap) + Vals(r.minHeap)) == multiset(Vals(q.maxHeap) + Vals(q.minHeap))
    ensures SameWindow(q, r) && SlotsInRange(r)
    ensures Coherent(q) ==> Coherent(r)
  {
    var mx := q.maxHeap[iMax := q.minHeap[iMin]];
    var mn := q.minHeap[iMin := q.maxHeap[iMax]];
    assert Vals(mx) == Vals(q.maxHeap)[iMax := q.minHeap[iMin].value];
    assert Vals(mn) == Vals(q.minHeap)[iMin := q.maxHeap[iMax].value];
    ExchangeContents(Vals(q.maxHeap), Vals(q.minHeap), iMax, iMin);
    var c1 := q.circular[mn[iMin].slot := q.circular[mn[iMin].slot].(index := iMin)];
    var c2 := c1[mx[iMax].slot := c1[mx[iMax].slot].(index := iMax)];
    var c3 := c2[mn[iMin].slot := c2[mn[iMin].slot].(side := Upper)];
    var c4 := c3[mx[iMax].slot := c3[mx[iMax].slot].(side := Lower)];
    var r := q.(maxHeap := mx, minHeap := mn, circular := c4);
    assert Values(r.circular) == Values(q.circular);
    SwapBetweenCoherent(q, iMax, iMin, r);
    r
  }

  /** Exchanging an element of one run with an element of another keeps
      the contents of the two together. */
  lemma ExchangeContents(a: seq<int>, b: seq<int>, i: nat, j: nat)
    requires i < |a| && j < |b|
    ensures multiset(a[i := b[j]] + b[j := a[i]]) == multiset(a + b)
  {
    var ab := a + b;
    assert a[i := b[j]] + b[j := a[i]] == ab[i := ab[|a| + j]][|a| + j := ab[i]];
    SwapContents(ab, i, |a| + j);
  }

  /** Exchanging the two tops, seen from either heap. */
  lemma SwapTopsHeaps(q: Queue, side: Side)
    requires SlotsInRange(q) && 0 < |q.maxHeap| && 0 < |q.minHeap|
    ensures var r := SwapBetween(q, 0, 0);
      && HeapOf(r, side) == HeapOf(q, side)[0 := HeapOf(q, side.Other())[0]]
      && HeapOf(r, side.Other()) == HeapOf(q, side.Other())[0 := HeapOf(q, side)[0]]
  {
  }

  /** Exchanging the two tops leaves every slot's index as it was: the
      owner of a top moves to the other heap's top, still at index 0. */
  lemma SwapTopsIndex(q: Queue, c: nat)
    requires Coherent(q) && 0 < |q.maxHeap| && 0 < |q.minHeap| && c < |q.circular|
    ensures SlotsInRange(q)
    ensures SwapBetween(q, 0, 0).circular[c].index == q.circular[c].index
  {
    var r := SwapBetween(q, 0, 0);
    assert Points(q, c);
    var s := q.circular[c];
    if s.index == 0 {
      CoherentEntry(r, s.side.Other(), 0);
    } else {
      CoherentEntry(r, s.side, s.index);
    }
  }

  lemma SwapBetweenCoherent(q: Queue, iMax: nat, iMin: nat, r: Queue)
    requires iMax < |q.maxHeap| && iMin < |q.minHeap|
    requires SlotsInRange(q)
    requires var mx := q.maxHeap[iMax := q.minHeap[iMin]];
      var mn := q.minHeap[iMin := q.maxHeap[iMax]];
      var c1 := q.circular[mn[iMin].slot := q.circular[mn[iMin].slot].(index := iMin)];
      var c2 := c1[mx[iMax].slot := c1[mx[iMax].slot].(index := iMax)];
      var c3 := c2[mn[iMin].slot := c2[mn[iMin].slot].(side := Upper)];
      var c4 := c3[mx[iMax].slot := c3[mx[iMax].slot].(side := Lower)];
      r == q.(maxHeap := mx, minHeap := mn, circular := c4)
    ensures Coherent(q) ==> Coherent(r)
  {
    if Coherent(q) {
      var sa, sb := q.maxHeap[iMax].slot, q.minHeap[iMin].slot;
      assert sa != sb;
      forall c | 0 <= c < |r.circular|
        ensures Points(r, c)
      {
        assert Points(q, c);
      }
    }
  }
}
