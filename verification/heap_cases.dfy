/** HeapCases: the ordering argument behind each case of heapReplace,
    stated on the heap sequences alone. Each case overwrites one entry
    of a heap, sifts it up, and then either sifts it down from where it
    stopped (cases 2 and 3) or exchanges the two tops and sifts the other
    heap down from its new top (cases 1 and 4). */
module HeapCases {
  import opened Order
  import opened HeapState
  import opened HeapSift

  /** A bound on the root of a heap bounds every entry. */
  lemma BoundedBelowTop(side: Side, h: seq<Entry>, b: int)
    requires IsHeap(side, h) && 0 < |h| && Dominates(side, b, h[0].value)
    ensures forall j :: 0 <= j < |h| ==> Dominates(side, b, h[j].value)
  {
    forall j | 0 <= j < |h|
      ensures Dominates(side, b, h[j].value)
    {
      RootDominates(side, h, j);
    }
  }

  /** Overwriting one entry of a heap breaks heap order at most on the
      edges touching it, and its parent still dominates its children. */
  lemma LocalBreak(side: Side, h: seq<Entry>, k: nat, e: Entry)
    requires IsHeap(side, h) && k < |h|
    ensures HeapBut(side, h[k := e], k)
    ensures GrandOk(side, h[k := e], 0, |h|, k)
  {
    var h1 := h[k := e];
    forall j | 1 <= j < |h1| && j / 2 == k && 1 <= k
      ensures Dominates(side, h1[k / 2].value, h1[j].value)
    {
      assert Dominates(side, h[k / 2].value, h[k].value);
      assert Dominates(side, h[k].value, h[j].value);
    }
  }

  /** A bound on every entry of a sequence bounds the head of any
      permutation of it. */
  lemma DominatedPermutation(side: Side, s: seq<Entry>, t: seq<Entry>, b: int)
    requires multiset(s) == multiset(t) && 0 < |t|
    requires forall j :: 0 <= j < |s| ==> Dominates(side, b, s[j].value)
    ensures Dominates(side, b, t[0].value)
  {
    assert t[0] in multiset(s);
  }

  /** Removing the same element from two permutations of each other
      leaves permutations of each other. */
  lemma TailPermutation<T>(s: seq<T>, t: seq<T>, k: nat)
    requires multiset(s) == multiset(t) && k < |s| && 0 < |t| && t[0] == s[k]
    ensures multiset(t[1..]) == multiset(s[..k] + s[k + 1..])
  {
    assert t == [t[0]] + t[1..];
    assert s == s[..k] + [s[k]] + s[k + 1..];
    assert multiset(t[1..]) == multiset(t) - multiset{t[0]};
    assert multiset(s[..k] + s[k + 1..]) == multiset(s) - multiset{s[k]};
  }

  /** A permutation that moves position `k` to the top keeps on the rest
      any bound that held for everything but position `k`. */
  lemma RestOfTop(side: Side, s: seq<Entry>, t: seq<Entry>, k: nat, b: int)
    requires multiset(s) == multiset(t) && k < |s| && 0 < |t| && t[0] == s[k]
    requires forall i :: 0 <= i < |s| && i != k ==> Dominates(side, b, s[i].value)
    ensures forall j :: 1 <= j < |t| ==> Dominates(side, b, t[j].value)
  {
    var rest := s[..k] + s[k + 1..];
    TailPermutation(s, t, k);
    forall j | 1 <= j < |t|
      ensures Dominates(side, b, t[j].value)
    {
      assert t[1..][j - 1] == t[j];
      assert t[j] in multiset(rest);
      var i :| 0 <= i < |rest| && rest[i] == t[j];
      if i < k {
        assert rest[i] == s[i];
      } else {
        assert rest[i] == s[i + 1];
      }
    }
  }

  /** A new top that dominates a bound on everything below it, over a heap
      ordered away from the top, makes a heap. */
  lemma NewTopHeap(side: Side, h: seq<Entry>, e: Entry, b: int)
    requires 0 < |h| && OrderedFrom(side, h, 0, |h|, 0)
    requires forall j :: 1 <= j < |h| ==> Dominates(side, b, h[j].value)
    requires Dominates(side, e.value, b)
    ensures IsHeap(side, h[0 := e])
  {
    var h' := h[0 := e];
    forall j | 1 <= j < |h'|
      ensures Dominates(side, h'[j / 2].value, h'[j].value)
    {
      if j / 2 == 0 {
        assert Dominates(side, b, h[j].value);
      }
    }
  }

  /** Replacing the top of a heap leaves every edge away from the top in
      order, with nothing above the top to dominate. */
  lemma ReplaceTopOrdered(side: Side, h: seq<Entry>, e: Entry)
    requires IsHeap(side, h) && 0 < |h|
    ensures OrderedFrom(side, h[0 := e], 0, |h|, 0)
    ensures GrandOk(side, h[0 := e], 0, |h|, 0)
  {
  }

  /** Cases 2 and 3 on the heap alone: the entry `e` written at `k` is
      sifted up, and then down from where it stopped. */
  function WithinHeap(side: Side, h: seq<Entry>, k: nat, e: Entry, end: nat): (r: seq<Entry>)
    requires k < |h| && end <= |h|
    ensures |r| == |h|
    ensures multiset(Vals(r)) == multiset(Vals(h[k := e]))
  {
    var rz := SiftUpHeap(side, h[k := e], k, end);
    SiftUpContents(side, h[k := e], k, end);
    SiftDownContents(side, rz.heap, rz.at, end);
    SiftDownHeap(side, rz.heap, rz.at, end)
  }

  /** Cases 2 and 3 keep heap order: over a heap, the result is a heap,
      and a bound `b` on the old top and on the new entry still bounds the
      new top. */
  lemma WithinCase(side: Side, h: seq<Entry>, k: nat, e: Entry, end: nat, b: int)
    requires IsHeap(side, h) && k < |h| == end
    requires Dominates(side, b, e.value) && Dominates(side, b, h[0].value)
    ensures var r := WithinHeap(side, h, k, e, end);
      IsHeap(side, r) && 0 < |r| && Dominates(side, b, r[0].value)
  {
    var h1 := h[k := e];
    LocalBreak(side, h, k, e);
    SiftUpOrders(side, h1, k, end);
    var rz := SiftUpHeap(side, h1, k, end);
    SiftDownOrders(side, rz.heap, rz.at, end, 0);
    SiftUpContents(side, h1, k, end);
    SiftDownContents(side, rz.heap, rz.at, end);
    BoundedBelowTop(side, h, b);
    assert forall j :: 0 <= j < |h1| ==> Dominates(side, b, h1[j].value);
    DominatedPermutation(side, h1, SiftDownHeap(side, rz.heap, rz.at, end), b);
  }

  /** Cases 1 and 4: an entry written at `k` that dominates the old top
      rises to the top, the heap is ordered below it, and a bound `t` on
      the old top still bounds everything below the new one. */
  lemma RiseToTop(side: Side, h: seq<Entry>, k: nat, e: Entry, end: nat, t: int)
    requires IsHeap(side, h) && k < |h| <= end
    requires Dominates(side, e.value, h[0].value) && Dominates(side, t, h[0].value)
    ensures var rz := SiftUpHeap(side, h[k := e], k, end);
      && rz.at == 0 && rz.heap[0] == e
      && OrderedFrom(side, rz.heap, 0, |h|, 0)
      && forall j :: 1 <= j < |h| ==> Dominates(side, t, rz.heap[j].value)
  {
    var h1 := h[k := e];
    LocalBreak(side, h, k, e);
    BoundedBelowTop(side, h, e.value);
    BoundedBelowTop(side, h, t);
    assert forall j :: 0 <= j < |h1| ==> Dominates(side, e.value, h1[j].value);
    SiftUpOrders(side, h1, k, end);
    SiftUpContents(side, h1, k, end);
    RestOfTop(side, h1, SiftUpHeap(side, h1, k, end).heap, k, t);
  }

  /** Cases 1 and 4 on the two heaps alone: the entry `e` written at `k`
      of `h` is sifted up, the tops of `h` and `g` are exchanged, and `g`
      is sifted down from the index the entry reached. The first
      component is the new `h`, the second the new `g`. */
  function ExchangeHeaps(side: Side, h: seq<Entry>, g: seq<Entry>, k: nat, e: Entry, endUp: nat, endDown: nat): (r: (seq<Entry>, seq<Entry>))
    requires k < |h| && 0 < |g| && endDown <= |g|
    ensures |r.0| == |h| && |r.1| == |g|
    ensures r.0[0] == g[0]
  {
    var rz := SiftUpHeap(side, h[k := e], k, endUp);
    (rz.heap[0 := g[0]], SiftDownHeap(side.Other(), g[0 := rz.heap[0]], rz.at, endDown))
  }

  /** Cases 1 and 4 keep heap order when the new entry dominates the old
      top of `h` and `g`'s top dominates it from the other side: the
      entry rises to the top, the exchange leaves `h` a heap under `g`'s
      old top, and `g`, sifted down from the entry, is a heap whose top
      that old top still bounds. */
  lemma ExchangeCase(side: Side, h: seq<Entry>, g: seq<Entry>, k: nat, e: Entry, endUp: nat)
    requires IsHeap(side, h) && IsHeap(side.Other(), g) && k < |h| <= endUp && 0 < |g|
    requires Dominates(side, e.value, h[0].value) && Dominates(side, g[0].value, h[0].value)
    requires Dominates(side.Other(), g[0].value, e.value)
    ensures var r := ExchangeHeaps(side, h, g, k, e, endUp, |g|);
      && IsHeap(side, r.0) && IsHeap(side.Other(), r.1)
      && Dominates(side.Other(), g[0].value, r.1[0].value)
  {
    var h1 := h[k := e];
    RiseToTop(side, h, k, e, endUp, g[0].value);
    var rz := SiftUpHeap(side, h1, k, endUp);
    NewTopHeap(side, rz.heap, g[0], g[0].value);
    var g3 := g[0 := e];
    ReplaceTopOrdered(side.Other(), g, e);
    SiftDownOrders(side.Other(), g3, 0, |g|, 0);
    forall j | 0 <= j < |g3|
      ensures Dominates(side.Other(), g[0].value, g3[j].value)
    {
      if j > 0 {
        RootDominates(side.Other(), g, j);
      }
    }
    SiftDownContents(side.Other(), g3, 0, |g|);
    DominatedPermutation(side.Other(), g3, SiftDownHeap(side.Other(), g3, 0, |g|), g[0].value);
  }

  /** The top of a min heap is a lower bound on its values. */
  lemma MinTopLeast(h: seq<Entry>)
    requires IsHeap(Upper, h) && 0 < |h|
    ensures AtLeast(Vals(h), h[0].value)
  {
    forall i | 0 <= i < |h|
      ensures h[0].value <= Vals(h)[i]
    {
      RootDominates(Upper, h, i);
    }
  }

  /** Case 1 with the new value strictly between the two tops: it rises to
      the top of the max heap, everything else there is at most it, and
      the min heap is at least it. */
  lemma RiseSplit(h: seq<Entry>, g: seq<Entry>, k: nat, e: Entry, end: nat)
    requires IsHeap(Lower, h) && IsHeap(Upper, g) && k < |h| <= end && 0 < |g|
    requires h[0].value < e.value < g[0].value
    ensures var rz := SiftUpHeap(Lower, h[k := e], k, end);
      && Vals(rz.heap)[0] == e.value
      && AtMost(Vals(rz.heap)[1..], e.value) && AtLeast(Vals(g), e.value)
  {
    RiseToTop(Lower, h, k, e, end, e.value);
    var rz := SiftUpHeap(Lower, h[k := e], k, end);
    var lo := Vals(rz.heap)[1..];
    forall i | 0 <= i < |lo|
      ensures lo[i] <= e.value
    {
      assert lo[i] == rz.heap[i + 1].value;
    }
    MinTopLeast(g);
  }

  /** A value strictly between the two tops, written into the max heap,
      is the element of rank `n == |h| - 1` of the new contents: the
      median when `h` is the lower half. */
  lemma RiseMedian(h: seq<Entry>, g: seq<Entry>, k: nat, e: Entry, w: seq<int>, n: nat)
    requires IsHeap(Lower, h) && IsHeap(Upper, g) && k < |h| && 0 < |g| && n == |h| - 1
    requires h[0].value < e.value < g[0].value
    requires multiset(Vals(h[k := e]) + Vals(g)) == multiset(w)
    ensures n < |SortedSeq(w)| && SortedSeq(w)[n] == e.value
  {
    RiseSplit(h, g, k, e, |h|);
    var a := Vals(SiftUpHeap(Lower, h[k := e], k, |h|).heap);
    SiftUpContents(Lower, h[k := e], k, |h|);
    assert multiset(a + Vals(g)) == multiset(w);
    SplitMedian(a, Vals(g), w, n);
  }
}
