/** HeapMedianQueue: the dual-heap variant. The lower `size / 2 + 1`
    values of the window sit in a max heap, the upper `size / 2` in a min
    heap, and the median is the max heap's top. An update overwrites the
    evicted value in place, sifts it up, possibly exchanges the two heap
    tops, and sifts down the heap that received a new top. */
module HeapMedianQueue {
  import opened Order
  import opened Ring
  import opened HeapState
  import opened HeapSift
  import opened HeapCases

  /** The heaps hold exactly the window's values. */
  ghost predicate Contents(q: Queue) {
    multiset(Values(q.circular)) == multiset(Vals(q.maxHeap) + Vals(q.minHeap))
  }

  /** Both heaps are in heap order and the max heap's top is at most the
      min heap's top. */
  ghost predicate Ordered(q: Queue) {
    && 0 < |q.maxHeap| && 0 < |q.minHeap|
    && IsHeap(Lower, q.maxHeap) && IsHeap(Upper, q.minHeap)
    && q.maxHeap[0].value <= q.minHeap[0].value
  }

  /** The shape is fixed, the back-references agree, the heaps hold the
      window's values, and the heaps are ordered. */
  ghost predicate Valid(q: Queue) {
    Shape(q) && Coherent(q) && Contents(q) && Ordered(q)
  }

  /** Every value of the max heap is at most every value of the min heap. */
  lemma PartitionHolds(q: Queue, a: nat, b: nat)
    requires Valid(q) && a < |q.maxHeap| && b < |q.minHeap|
    ensures q.maxHeap[a].value <= q.minHeap[b].value
  {
    RootDominates(Lower, q.maxHeap, a);
    RootDominates(Upper, q.minHeap, b);
  }

  /** The max heap's top is the element of rank `size / 2` of the window. */
  lemma HeapMedian(q: Queue)
    requires Valid(q)
    ensures q.maxHeap[0].value == SortedSeq(Values(q.circular))[q.size / 2]
  {
    var x := q.maxHeap[0].value;
    var lo, hi := Vals(q.maxHeap)[1..], Vals(q.minHeap);
    assert AtMost(lo, x) by {
      forall i | 0 <= i < |lo|
        ensures lo[i] <= x
      {
        RootDominates(Lower, q.maxHeap, i + 1);
      }
    }
    assert AtLeast(hi, x) by {
      forall i | 0 <= i < |hi|
        ensures x <= hi[i]
      {
        RootDominates(Upper, q.minHeap, i);
      }
    }
    SplitMedian(Vals(q.maxHeap), hi, Values(q.circular), q.size / 2);
  }

  /** mqMedian: the median of the window, read off the max heap's top. */
  function Median(q: Queue): (m: int)
    requires Valid(q)
    ensures m == SortedSeq(Values(q.circular))[q.size / 2]
  {
    HeapMedian(q);
    q.maxHeap[0].value
  }

  /** The four cases of determinPlace, numbered 1 to 4 there: the half the
      new value belongs to, and the heap that holds the value it evicts. */
  datatype Place = UpperFromLower | UpperFromUpper | LowerFromLower | LowerFromUpper {
    /** The heap the new value belongs to. */
    function Dest(): Side {
      if this == UpperFromLower || this == UpperFromUpper then Upper else Lower
    }
    /** The heap the evicted value is taken from. */
    function Source(): Side {
      if this == UpperFromLower || this == LowerFromLower then Lower else Upper
    }
  }

  /** determinPlace: a new value above the max heap's top belongs to the
      upper half; the evicted value's heap is read from its slot. */
  function Classify(q: Queue, v: int): (p: Place)
    requires Shape(q)
    ensures p.Dest() == Upper <==> v > q.maxHeap[0].value
    ensures p.Source() == q.circular[q.start].side
  {
    match q.circular[q.start].side
    case Lower => if v > q.maxHeap[0].value then UpperFromLower else LowerFromLower
    case Upper => if v > q.maxHeap[0].value then UpperFromUpper else LowerFromUpper
  }

  /** Changing one position changes the contents by one element. */
  lemma ReplaceOne(s: seq<int>, i: nat, v: int)
    requires i < |s|
    ensures multiset(s[i := v]) == multiset(s) - multiset{s[i]} + multiset{v}
  {
    assert s == s[..i] + [s[i]] + s[i + 1..];
    assert s[i := v] == s[..i] + [v] + s[i + 1..];
  }

  /** The writes of mqUpdate and the first statement of each heapReplace
      case together: the evicted slot and its heap entry both take the new
      value. */
  function Overwrite(q: Queue, v: int): (r: Queue)
    requires Valid(q)
    ensures Shape(r) && Coherent(r) && Contents(r)
    ensures r.size == q.size && r.start == q.start
    ensures Values(r.circular) == Values(q.circular)[q.start := v]
    ensures var s := q.circular[q.start];
      && s.index < |HeapOf(q, s.side)|
      && HeapOf(r, s.side) == HeapOf(q, s.side)[s.index := Entry(v, q.start)]
      && HeapOf(r, s.side.Other()) == HeapOf(q, s.side.Other())
      && r.circular[q.start] == Slot(v, s.side, s.index)
  {
    var s := q.circular[q.start];
    assert Points(q, q.start);
    var h := HeapOf(q, s.side);
    var r := WithHeap(q, s.side, h[s.index := Entry(v, q.start)])
              .(circular := q.circular[q.start := s.(value := v)]);
    OverwriteContents(q, v, r);
    OverwriteCoherent(q, v, r);
    r
  }

  lemma OverwriteContents(q: Queue, v: int, r: Queue)
    requires Valid(q)
    requires var s := q.circular[q.start];
      && s.index < |HeapOf(q, s.side)|
      && r == WithHeap(q, s.side, HeapOf(q, s.side)[s.index := Entry(v, q.start)])
              .(circular := q.circular[q.start := s.(value := v)])
    ensures Values(r.circular) == Values(q.circular)[q.start := v]
    ensures Contents(r)
  {
    var s := q.circular[q.start];
    assert Points(q, q.start);
    CoherentEntry(q, s.side, s.index);
    var mx, mn := Vals(q.maxHeap), Vals(q.minHeap);
    var all := mx + mn;
    var pos := if s.side == Lower then s.index else |mx| + s.index;
    match s.side
    case Lower =>
      JoinUpdateLeft(q.maxHeap, q.minHeap, s.index, Entry(v, q.start));
    case Upper =>
      JoinUpdateRight(q.maxHeap, q.minHeap, s.index, Entry(v, q.start));
    assert Values(r.circular) == Values(q.circular)[q.start := v];
    ReplaceOne(all, pos, v);
    ReplaceOne(Values(q.circular), q.start, v);
  }

  lemma ValsUpdate(h: seq<Entry>, k: nat, e: Entry)
    requires k < |h|
    ensures Vals(h[k := e]) == Vals(h)[k := e.value]
  {
  }

  /** Writing into the first of two joined runs writes the join at the
      same position. */
  lemma JoinUpdateLeft(a: seq<Entry>, b: seq<Entry>, k: nat, e: Entry)
    requires k < |a|
    ensures Vals(a[k := e]) + Vals(b) == (Vals(a) + Vals(b))[k := e.value]
    ensures (Vals(a) + Vals(b))[k] == a[k].value
  {
    ValsUpdate(a, k, e);
  }

  /** Writing into the second of two joined runs writes the join past the
      first run. */
  lemma JoinUpdateRight(a: seq<Entry>, b: seq<Entry>, k: nat, e: Entry)
    requires k < |b|
    ensures Vals(a) + Vals(b[k := e]) == (Vals(a) + Vals(b))[|a| + k := e.value]
    ensures (Vals(a) + Vals(b))[|a| + k] == b[k].value
  {
    ValsUpdate(b, k, e);
  }

  lemma OverwriteCoherent(q: Queue, v: int, r: Queue)
    requires Valid(q)
    requires var s := q.circular[q.start];
      && s.index < |HeapOf(q, s.side)|
      && r == WithHeap(q, s.side, HeapOf(q, s.side)[s.index := Entry(v, q.start)])
              .(circular := q.circular[q.start := s.(value := v)])
    ensures Coherent(r)
  {
    assert Points(q, q.start);
    forall c | 0 <= c < |r.circular|
      ensures Points(r, c)
    {
      assert Points(q, c);
    }
  }

  /** The max heap's top bounds the max heap from above and the min heap
      from below. */
  lemma HeapsBounded(q: Queue)
    requires Valid(q)
    ensures forall j :: 0 <= j < |q.maxHeap| ==> q.maxHeap[j].value <= q.maxHeap[0].value
    ensures forall j :: 0 <= j < |q.minHeap| ==> q.maxHeap[0].value <= q.minHeap[j].value
  {
    forall j | 0 <= j < |q.maxHeap|
      ensures q.maxHeap[j].value <= q.maxHeap[0].value
    {
      RootDominates(Lower, q.maxHeap, j);
    }
    forall j | 0 <= j < |q.minHeap|
      ensures q.maxHeap[0].value <= q.minHeap[j].value
    {
      RootDominates(Upper, q.minHeap, j);
    }
  }

  /** `r` holds the window of `q` with the evicted value replaced by `v`,
      its links and heap contents in agreement. */
  ghost predicate Rewritten(q: Queue, v: int, r: Queue)
    requires q.start < |q.circular|
  {
    && Shape(r) && Coherent(r) && Contents(r)
    && r.size == q.size && r.start == q.start
    && Values(r.circular) == Values(q.circular)[q.start := v]
  }

  /** A sift inside one heap keeps a rewritten window rewritten. */
  lemma SiftKeepsRewritten(q: Queue, v: int, q1: Queue, r: Queue, side: Side)
    requires q.start < |q.circular| && Rewritten(q, v, q1)
    requires SameWindow(q1, r) && Coherent(r)
    requires multiset(Vals(HeapOf(r, side))) == multiset(Vals(HeapOf(q1, side)))
    requires HeapOf(r, side.Other()) == HeapOf(q1, side.Other())
    ensures Rewritten(q, v, r)
  {
    assert multiset(Vals(r.maxHeap) + Vals(r.minHeap)) == multiset(Vals(q1.maxHeap) + Vals(q1.minHeap));
  }

  /** A sift inside one heap keeps the heaps' contents equal to the window's. */
  lemma SiftKeepsContents(q1: Queue, r: Queue, side: Side)
    requires Contents(q1) && SameWindow(q1, r)
    requires multiset(Vals(HeapOf(r, side))) == multiset(Vals(HeapOf(q1, side)))
    requires HeapOf(r, side.Other()) == HeapOf(q1, side.Other())
    ensures Contents(r)
  {
    assert multiset(Vals(r.maxHeap) + Vals(r.minHeap)) == multiset(Vals(q1.maxHeap) + Vals(q1.minHeap));
  }

  /** Exchanging the two tops keeps a rewritten window rewritten. */
  lemma SwapKeepsRewritten(q: Queue, v: int, q2: Queue, q3: Queue)
    requires q.start < |q.circular| && Rewritten(q, v, q2)
    requires SameWindow(q2, q3) && Coherent(q3)
    requires multiset(Vals(q3.maxHeap) + Vals(q3.minHeap)) == multiset(Vals(q2.maxHeap) + Vals(q2.minHeap))
    ensures Rewritten(q, v, q3)
  {
  }

  /** heapReplace cases 2 and 3: the evicted value and the new one belong
      to the same heap `side`. The new value is written over the evicted
      entry, sifted up, and then sifted down from where it stopped, both
      within the first `end` entries. On the heaps this is `WithinHeap`,
      and the other heap is untouched. */
  function Within(q: Queue, v: int, side: Side, end: nat): (r: Queue)
    requires Valid(q) && q.circular[q.start].side == side && end <= |HeapOf(q, side)|
    ensures Rewritten(q, v, r)
    ensures var s := q.circular[q.start];
      && s.index < |HeapOf(q, side)|
      && HeapOf(r, side) == WithinHeap(side, HeapOf(q, side), s.index, Entry(v, q.start), end)
      && HeapOf(r, side.Other()) == HeapOf(q, side.Other())
  {
    var k := q.circular[q.start].index;
    var q1 := Overwrite(q, v);
    var q2 := SiftUp(q1, side, k, end);
    RisePosition(q1, side, k, end, q.start);
    SiftUpContents(side, HeapOf(q1, side), k, end);
    var r := SiftDown(q2, side, q2.circular[q.start].index, end);
    SiftDownContents(side, HeapOf(q2, side), q2.circular[q.start].index, end);
    SiftKeepsRewritten(q, v, q1, q2, side);
    SiftKeepsRewritten(q, v, q2, r, side);
    r
  }

  /** heapReplace cases 1 and 4: the new value is written over the evicted
      entry of heap `side` and sifted up within `endUp` entries, the two
      tops are exchanged, and the other heap is sifted down, within
      `endDown` entries, from the index the evicted slot then records. On
      the heaps this is `ExchangeHeaps`. */
  function Exchange(q: Queue, v: int, side: Side, endUp: nat, endDown: nat): (r: Queue)
    requires Valid(q) && q.circular[q.start].side == side && endDown <= |HeapOf(q, side.Other())|
    ensures Rewritten(q, v, r)
    ensures var s := q.circular[q.start];
      && s.index < |HeapOf(q, side)|
      && var hs := ExchangeHeaps(side, HeapOf(q, side), HeapOf(q, side.Other()), s.index, Entry(v, q.start), endUp, endDown);
         HeapOf(r, side) == hs.0 && HeapOf(r, side.Other()) == hs.1
  {
    var q3 := RiseAndSwap(q, v, side, endUp);
    var r := SiftDown(q3, side.Other(), q3.circular[q.start].index, endDown);
    SiftDownContents(side.Other(), HeapOf(q3, side.Other()), q3.circular[q.start].index, endDown);
    match side
    case Lower => SiftKeepsContents(q3, r, Upper); r
    case Upper => SiftKeepsContents(q3, r, Lower); r
  }

  /** The first half of cases 1 and 4: overwrite, sift up within `endUp`
      entries, exchange the tops. The evicted slot keeps recording the
      index where its entry stopped rising. */
  function RiseAndSwap(q: Queue, v: int, side: Side, endUp: nat): (r: Queue)
    requires Valid(q) && q.circular[q.start].side == side
    ensures Rewritten(q, v, r)
    ensures var s := q.circular[q.start];
      && s.index < |HeapOf(q, side)|
      && var rz := SiftUpHeap(side, HeapOf(q, side)[s.index := Entry(v, q.start)], s.index, endUp);
         && HeapOf(r, side) == rz.heap[0 := HeapOf(q, side.Other())[0]]
         && HeapOf(r, side.Other()) == HeapOf(q, side.Other())[0 := rz.heap[0]]
         && r.circular[q.start].index == rz.at
  {
    var k := q.circular[q.start].index;
    var q1 := Overwrite(q, v);
    var q2 := SiftUp(q1, side, k, endUp);
    RisePosition(q1, side, k, endUp, q.start);
    SiftUpContents(side, HeapOf(q1, side), k, endUp);
    SwapTopsIndex(q2, q.start);
    SwapTopsHeaps(q2, side);
    var r := SwapBetween(q2, 0, 0);
    SiftKeepsRewritten(q, v, q1, q2, side);
    SwapKeepsRewritten(q, v, q2, r);
    r
  }

  /** Cases 2 and 3 keep the queue valid when the new value lies on the
      evicted heap's side of the other heap's top: at most the min heap's
      top in case 3, at least the max heap's top in case 2. */
  lemma WithinKeepsValid(q: Queue, v: int, side: Side, end: nat)
    requires Valid(q) && q.circular[q.start].side == side && end == |HeapOf(q, side)|
    requires Dominates(side, HeapOf(q, side.Other())[0].value, v)
    ensures Valid(Within(q, v, side, end))
  {
    var g := HeapOf(q, side.Other());
    assert Points(q, q.start);
    assert Dominates(side, g[0].value, HeapOf(q, side)[0].value);
    WithinCase(side, HeapOf(q, side), q.circular[q.start].index, Entry(v, q.start), end, g[0].value);
  }

  /** Cases 1 and 4 keep the queue valid when the new value lies on the
      far side of the other heap's top: at least the min heap's top in
      case 1, at most the max heap's top in case 4. */
  lemma ExchangeKeepsValid(q: Queue, v: int, side: Side, endUp: nat, endDown: nat)
    requires Valid(q) && q.circular[q.start].side == side
    requires |HeapOf(q, side)| <= endUp && endDown == |HeapOf(q, side.Other())|
    requires Dominates(side.Other(), HeapOf(q, side.Other())[0].value, v)
    ensures Valid(Exchange(q, v, side, endUp, endDown))
  {
    var h, g := HeapOf(q, side), HeapOf(q, side.Other());
    assert Points(q, q.start);
    assert Dominates(side, g[0].value, h[0].value);
    ExchangeCase(side, h, g, q.circular[q.start].index, Entry(v, q.start), endUp);
  }

  /** heapReplace as written. Case 1 always exchanges the tops, so the
      queue stays valid in every case except case 1 with a new value below
      the min heap's top. With the new value strictly between the two tops,
      the new value is the median of the new window, but the max heap's
      top, which mqMedian reports, is the min heap's old top. */
  method HeapReplaceAsWritten(q: Queue, v: int) returns (r: Queue)
    requires Valid(q)
    ensures Rewritten(q, v, r)
    ensures Classify(q, v) != UpperFromLower || q.minHeap[0].value <= v ==> Valid(r)
    ensures Classify(q, v) == UpperFromLower && v < q.minHeap[0].value ==>
      && SortedSeq(Values(r.circular))[q.size / 2] == v
      && r.maxHeap[0].value == q.minHeap[0].value
      && r.maxHeap[0].value != v
  {
    var lower, upper := q.size / 2 + 1, q.size / 2;
    match Classify(q, v)
    case UpperFromLower =>
      r := Exchange(q, v, Lower, lower, upper);
      if q.minHeap[0].value <= v {
        ExchangeKeepsValid(q, v, Lower, lower, upper);
      } else {
        AsWrittenCaseOneFails(q, v);
      }
    case UpperFromUpper =>
      r := Within(q, v, Upper, upper);
      WithinKeepsValid(q, v, Upper, upper);
    case LowerFromLower =>
      r := Within(q, v, Lower, lower);
      WithinKeepsValid(q, v, Lower, lower);
    case LowerFromUpper =>
      r := Exchange(q, v, Upper, lower, lower);
      ExchangeKeepsValid(q, v, Upper, lower, lower);
  }

  /** heapReplace with case 1 corrected: a case 1 value below the min
      heap's top is the largest value of the lower half, so it is placed
      as in case 3 and nothing is exchanged. Every placement then keeps
      the queue valid. */
  method HeapReplace(q: Queue, v: int) returns (r: Queue)
    requires Valid(q)
    ensures Valid(r) && Rewritten(q, v, r)
  {
    var lower := q.size / 2 + 1;
    if Classify(q, v) == UpperFromLower && v < q.minHeap[0].value {
      r := Within(q, v, Lower, lower);
      WithinKeepsValid(q, v, Lower, lower);
    } else {
      r := HeapReplaceAsWritten(q, v);
    }
  }

  /** mqUpdate with case 1 corrected: the oldest value of the window is
      evicted and `v` appended, the queue stays valid, and the median it
      reports is the median of the new window. */
  method Update(q: Queue, v: int) returns (r: Queue)
    requires Valid(q)
    ensures Valid(r) && r.size == q.size
    ensures Values(r.circular) == Values(q.circular)[q.start := v]
    ensures r.start == Advance(q.start, q.size)
    ensures Window(Values(r.circular), r.start) == Window(Values(q.circular), q.start)[1..] + [v]
    ensures Median(r) == SortedSeq(Window(Values(q.circular), q.start)[1..] + [v])[q.size / 2]
  {
    var h := HeapReplace(q, v);
    var next := Advance(q.start, q.size);
    MoveCursor(h, next);
    r := h.(start := next);
    PushEvictsOldest(Values(q.circular), q.start, v);
    SortedSeqOfPermutation(Values(r.circular), Window(Values(r.circular), r.start));
  }

  /** mqUpdate as written: the window moves on as in the corrected update,
      and the queue stays valid except in case 1 with a new value below
      the min heap's top. With the new value strictly between the two
      tops, the max heap's top is no longer the window's median. */
  method UpdateAsWritten(q: Queue, v: int) returns (r: Queue)
    requires Valid(q)
    ensures Shape(r) && Coherent(r) && Contents(r) && r.size == q.size
    ensures Values(r.circular) == Values(q.circular)[q.start := v]
    ensures r.start == Advance(q.start, q.size)
    ensures Window(Values(r.circular), r.start) == Window(Values(q.circular), q.start)[1..] + [v]
    ensures Classify(q, v) != UpperFromLower || q.minHeap[0].value <= v ==> Valid(r)
    ensures Classify(q, v) == UpperFromLower && v < q.minHeap[0].value ==>
      && SortedSeq(Values(r.circular))[q.size / 2] == v
      && r.maxHeap[0].value == q.minHeap[0].value
      && r.maxHeap[0].value != v
  {
    var h := HeapReplaceAsWritten(q, v);
    var next := Advance(q.start, q.size);
    MoveCursor(h, next);
    r := h.(start := next);
    PushEvictsOldest(Values(q.circular), q.start, v);
  }

  /** The cursor takes no part in the heaps' invariants. */
  lemma MoveCursor(q: Queue, s: nat)
    requires Shape(q) && s < q.size
    ensures Shape(q.(start := s))
    ensures Coherent(q) ==> Coherent(q.(start := s))
    ensures Contents(q) ==> Contents(q.(start := s))
    ensures Valid(q) ==> Valid(q.(start := s))
  {
    var r := q.(start := s);
    assert r.circular == q.circular && r.maxHeap == q.maxHeap && r.minHeap == q.minHeap;
    if Coherent(q) {
      forall c | 0 <= c < |r.circular|
        ensures Points(r, c)
      {
        assert Points(q, c);
      }
    }
  }

  /** Case 1 as written goes wrong whenever the new value falls strictly
      between the two heap tops: the new value rises to the max heap's
      top, so it is the median of the new window, but the exchange puts
      the min heap's old top there instead. */
  lemma AsWrittenCaseOneFails(q: Queue, v: int)
    requires Valid(q) && q.circular[q.start].side == Lower
    requires q.maxHeap[0].value < v < q.minHeap[0].value
    ensures var r := Exchange(q, v, Lower, q.size / 2 + 1, q.size / 2);
      && SortedSeq(Values(r.circular))[q.size / 2] == v
      && r.maxHeap[0] == q.minHeap[0]
  {
    var lower, upper := q.size / 2 + 1, q.size / 2;
    var r := Exchange(q, v, Lower, lower, upper);
    var q1 := Overwrite(q, v);
    assert Values(r.circular) == Values(q1.circular);
    RiseMedian(q.maxHeap, q.minHeap, q.circular[q.start].index, Entry(v, q.start), Values(r.circular), q.size / 2);
  }

  /** The smallest witness: window [1, 2, 10] with the cursor on the 1,
      updated with 5, is case 1. The new window is [5, 2, 10] with median
      5, but case 1 as written leaves 10 on top of the max heap. */
  lemma CounterexampleOneTwoTen(q: Queue)
    requires Valid(q) && Values(q.circular) == [1, 2, 10] && q.start == 0
    ensures Classify(q, 5) == UpperFromLower
    ensures var r := Exchange(q, 5, Lower, 2, 1);
      && Values(r.circular) == [5, 2, 10]
      && SortedSeq(Values(r.circular))[1] == 5
      && r.maxHeap[0].value == 10
  {
    OneTwoTenTops(q);
    OneTwoTenEvicted(q);
    assert Values(q.circular)[0 := 5] == [5, 2, 10];
    AsWrittenCaseOneFails(q, 5);
  }

  /** The witness end to end: mqCreate over [1, 2, 10], then mqUpdate as
      written with 5. The max heap's top, which mqMedian reports, is 10;
      the median of the new window [5, 2, 10] is 5. */
  method OneTwoTenUpdate() returns (reported: int, median: int)
    ensures reported == 10 && median == 5
  {
    var q := Create([1, 2, 10]);
    OneTwoTenTops(q);
    OneTwoTenEvicted(q);
    var r := UpdateAsWritten(q, 5);
    reported := r.maxHeap[0].value;
    median := SortedSeq(Values(r.circular))[q.size / 2];
  }

  /** In any valid queue over [1, 2, 10], the tops are 2 and 10. */
  lemma OneTwoTenTops(q: Queue)
    requires Valid(q) && Values(q.circular) == [1, 2, 10]
    ensures q.size == 3 && q.maxHeap[0].value == 2 && q.minHeap[0].value == 10
  {
    OneTwoTenMedian(q);
    var a, b, c := q.maxHeap[0].value, q.maxHeap[1].value, q.minHeap[0].value;
    assert b <= 2 && 2 <= c by {
      HeapsBounded(q);
    }
    assert 10 in multiset([a, b, c]) by {
      assert Vals(q.maxHeap) + Vals(q.minHeap) == [a, b, c];
      assert 10 in multiset(Values(q.circular));
    }
  }

  /** The median of [1, 2, 10] is 2. */
  lemma OneTwoTenMedian(q: Queue)
    requires Valid(q) && Values(q.circular) == [1, 2, 10]
    ensures q.maxHeap[0].value == 2
  {
    assert q.size / 2 == 1;
    AscendingMedian([1, 2, 10], Values(q.circular), q.size / 2);
    HeapMedian(q);
  }

  /** In any valid queue over [1, 2, 10], the 1 is in the max heap. */
  lemma OneTwoTenEvicted(q: Queue)
    requires Valid(q) && Values(q.circular) == [1, 2, 10]
    ensures q.circular[0].side == Lower
  {
    OneTwoTenTops(q);
    HeapsBounded(q);
    assert Points(q, 0);
    CoherentEntry(q, q.circular[0].side, q.circular[0].index);
    assert q.circular[0].value == 1;
  }

  /** The entries mqCreate starts from: slot `i` holds `values[i]`. */
  function Tagged(values: seq<int>): (es: seq<Entry>)
    ensures |es| == |values|
    ensures forall i :: 0 <= i < |es| ==> es[i] == Entry(values[i], i)
    ensures Vals(es) == values
  {
    seq(|values|, i requires 0 <= i < |values| => Entry(values[i], i))
  }

  /** Inserts an entry into a run of entries ascending by value. */
  function InsertEntry(e: Entry, s: seq<Entry>): (r: seq<Entry>)
    requires Ascending(Vals(s))
    ensures Ascending(Vals(r))
    ensures multiset(r) == multiset(s) + multiset{e}
    ensures multiset(Vals(r)) == multiset(Vals(s)) + multiset{e.value}
    ensures |r| == |s| + 1
  {
    if |s| == 0 then
      assert Vals([e]) == [e.value];
      [e]
    else if e.value <= s[0].value then
      PrependEntry(e, s);
      [e] + s
    else
      assert Ascending(Vals(s[1..])) by {
        AscendingTail(Vals(s));
        assert Vals(s[1..]) == Vals(s)[1..];
      }
      var rest := InsertEntry(e, s[1..]);
      InsertEntryStep(e, s, rest);
      [s[0]] + rest
  }

  /** Prepending an entry no larger than the head keeps the run ascending. */
  lemma PrependEntry(e: Entry, s: seq<Entry>)
    requires Ascending(Vals(s)) && 0 < |s| && e.value <= s[0].value
    ensures Ascending(Vals([e] + s))
    ensures multiset(Vals([e] + s)) == multiset(Vals(s)) + multiset{e.value}
  {
    assert Vals([e] + s) == [e.value] + Vals(s);
    assert AtLeast(Vals(s), e.value) by {
      forall i | 0 <= i < |s|
        ensures e.value <= Vals(s)[i]
      {
        assert Vals(s)[0] <= Vals(s)[i];
      }
    }
    ConsAscending(e.value, Vals(s));
  }

  /** The head of an ascending run bounds its tail from below. */
  lemma AscendingTailBound(s: seq<int>)
    requires Ascending(s) && 0 < |s|
    ensures AtLeast(s[1..], s[0])
  {
    forall i | 0 <= i < |s| - 1
      ensures s[0] <= s[1..][i]
    {
      assert s[1..][i] == s[i + 1];
    }
  }

  /** A lower bound `x` on `t` and on a larger `y` stays in front of any
      ascending arrangement `r` of `t` with `y` added. */
  lemma HeadStaysFirst(x: int, t: seq<int>, y: int, r: seq<int>)
    requires AtLeast(t, x) && x < y
    requires Ascending(r) && multiset(r) == multiset(t) + multiset{y}
    ensures Ascending([x] + r)
  {
    assert AtLeast(t + [y], x) by {
      forall i | 0 <= i < |t| + 1
        ensures x <= (t + [y])[i]
      {
        if i < |t| {
          assert (t + [y])[i] == t[i];
        }
      }
    }
    AtLeastPermutation(t + [y], r, x);
    ConsAscending(x, r);
  }

  /** The recursive step of the insertion: the head stays in front of the
      rest with `e` inserted. */
  lemma InsertEntryStep(e: Entry, s: seq<Entry>, rest: seq<Entry>)
    requires Ascending(Vals(s)) && 0 < |s| && s[0].value < e.value
    requires Ascending(Vals(rest))
    requires multiset(rest) == multiset(s[1..]) + multiset{e}
    requires multiset(Vals(rest)) == multiset(Vals(s[1..])) + multiset{e.value}
    ensures Ascending(Vals([s[0]] + rest))
    ensures multiset([s[0]] + rest) == multiset(s) + multiset{e}
    ensures multiset(Vals([s[0]] + rest)) == multiset(Vals(s)) + multiset{e.value}
  {
    var vs, vr := Vals(s), Vals(rest);
    assert Vals(s[1..]) == vs[1..];
    assert Vals([s[0]] + rest) == [s[0].value] + vr;
    AscendingTailBound(vs);
    HeadStaysFirst(vs[0], vs[1..], e.value, vr);
    assert multiset([s[0]] + rest) == multiset(s) + multiset{e} by {
      assert s == [s[0]] + s[1..];
    }
    assert multiset(Vals([s[0]] + rest)) == multiset(vs) + multiset{e.value} by {
      assert vs == [vs[0]] + vs[1..];
    }
  }

  /** The qsort of mqCreate: the entries in ascending order of value. */
  function SortEntries(s: seq<Entry>): (r: seq<Entry>)
    ensures Ascending(Vals(r))
    ensures multiset(r) == multiset(s)
    ensures multiset(Vals(r)) == multiset(Vals(s))
    ensures |r| == |s|
  {
    if |s| == 0 then []
    else
      assert s == [s[0]] + s[1..];
      assert Vals(s) == [s[0].value] + Vals(s[1..]);
      InsertEntry(s[0], SortEntries(s[1..]))
  }

  /** A permutation of the tagged values names every slot exactly once,
      each with that slot's value. */
  lemma SortedSlots(sorted: seq<Entry>, values: seq<int>)
    requires multiset(sorted) == multiset(Tagged(values))
    ensures |sorted| == |values|
    ensures forall p :: 0 <= p < |sorted| ==>
      sorted[p].slot < |values| && sorted[p].value == values[sorted[p].slot]
    ensures SlotsDistinct(sorted)
    ensures forall c :: 0 <= c < |values| ==> Entry(values[c], c) in sorted
  {
    var es := Tagged(values);
    assert |sorted| == |multiset(sorted)| == |es|;
    forall p | 0 <= p < |sorted|
      ensures sorted[p].slot < |values| && sorted[p].value == values[sorted[p].slot]
    {
      assert sorted[p] in multiset(es);
    }
    forall p, p' {:trigger sorted[p].slot, sorted[p'].slot} | 0 <= p < p' < |sorted|
      ensures sorted[p].slot != sorted[p'].slot
    {
      assert sorted[p] in multiset(es);
      assert sorted[p'] in multiset(es);
      RepeatCount(sorted, p, p');
      DistinctAtMostOnce(es, sorted[p]);
    }
    forall c | 0 <= c < |values|
      ensures Entry(values[c], c) in sorted
    {
      assert es[c] in multiset(sorted);
    }
  }

  /** No two entries name the same slot. */
  ghost predicate SlotsDistinct(s: seq<Entry>) {
    forall p, p' {:trigger s[p].slot, s[p'].slot} :: 0 <= p < p' < |s| ==> s[p].slot != s[p'].slot
  }

  /** The slot the relink loops of mqCreate give to position `k` of the
      sorted entries: the first `half` positions form the max heap, the
      rest the min heap. */
  function Linked(e: Entry, k: nat, half: nat): Slot {
    if k < half then Slot(e.value, Lower, k) else Slot(e.value, Upper, k - half)
  }

  /** mqCreate: the window is `values` with the cursor on slot 0; the
      values are sorted, the lower `size / 2 + 1` go to the max heap and
      the rest to the min heap, every slot is linked to its entry, and
      both heaps are built bottom-up. The result is a valid queue. */
  method Create(values: seq<int>) returns (q: Queue)
    requires |values| >= 3 && |values| % 2 == 1
    ensures Valid(q)
    ensures Values(q.circular) == values && q.size == |values| && q.start == 0
  {
    var half := |values| / 2 + 1;
    var q0, sorted := SortAndLink(values);
    var q1 := BuildHeap(q0, Lower, half);
    var q2 := BuildHeap(q1, Upper, half - 1);
    BuiltValid(q0, q1, q2, sorted, half);
    q := q2;
  }

  /** The first half of mqCreate, before the heaps are built: the tagged
      values sorted ascending, split at `size / 2 + 1` into the two heap
      arrays, and every slot linked to its entry. */
  method SortAndLink(values: seq<int>) returns (q0: Queue, sorted: seq<Entry>)
    requires |values| >= 3 && |values| % 2 == 1
    ensures Shape(q0) && Coherent(q0) && Contents(q0)
    ensures Values(q0.circular) == values && q0.size == |values| && q0.start == 0
    ensures |sorted| == |values| && Ascending(Vals(sorted))
    ensures var half := |values| / 2 + 1;
      HeapOf(q0, Lower) == sorted[..half] && HeapOf(q0, Upper) == sorted[half..]
  {
    var n := |values|;
    var half := n / 2 + 1;
    sorted := SortEntries(Tagged(values));
    SortedSlots(sorted, values);
    var circ := Relink(values, sorted);
    q0 := Queue(circ, sorted[..half], sorted[half..], n, 0);
    RelinkedValid(values, sorted, circ, q0);
  }

  /** The relinked split is a well-formed queue over the window. */
  lemma RelinkedValid(values: seq<int>, sorted: seq<Entry>, circ: seq<Slot>, q0: Queue)
    requires |values| >= 3 && |values| % 2 == 1
    requires |sorted| == |values| == |circ|
    requires forall p :: 0 <= p < |sorted| ==> sorted[p].slot < |values|
    requires forall c :: 0 <= c < |values| ==> Entry(values[c], c) in sorted
    requires multiset(Vals(sorted)) == multiset(Vals(Tagged(values)))
    requires forall c :: 0 <= c < |values| ==> circ[c].value == values[c]
    requires forall k :: 0 <= k < |sorted| ==> circ[sorted[k].slot] == Linked(sorted[k], k, |values| / 2 + 1)
    requires var half := |values| / 2 + 1;
      q0 == Queue(circ, sorted[..half], sorted[half..], |values|, 0)
    ensures Shape(q0) && Coherent(q0) && Contents(q0) && Values(q0.circular) == values
  {
    RelinkedEntries(values, sorted, circ);
    RelinkedSlots(values, sorted, circ);
    RelinkedContents(values, sorted, circ);
  }

  /** The relink loops of mqCreate: position `k` of the sorted entries
      becomes index `k` of the max heap, or index `k - half` of the min
      heap, and the slot it came from is pointed at it. */
  method Relink(values: seq<int>, sorted: seq<Entry>) returns (circ: seq<Slot>)
    requires |values| >= 3 && |values| % 2 == 1 && |sorted| == |values|
    requires forall p :: 0 <= p < |sorted| ==> sorted[p].slot < |values| && sorted[p].value == values[sorted[p].slot]
    requires SlotsDistinct(sorted)
    ensures |circ| == |values|
    ensures forall c :: 0 <= c < |values| ==> circ[c].value == values[c]
    ensures forall k :: 0 <= k < |sorted| ==> circ[sorted[k].slot] == Linked(sorted[k], k, |values| / 2 + 1)
  {
    var n := |values|;
    var half := n / 2 + 1;
    circ := seq(n, i requires 0 <= i < n => Slot(values[i], Lower, i));
    var p := 0;
    while p < half
      invariant 0 <= p <= half
      invariant |circ| == n
      invariant forall c :: 0 <= c < n ==> circ[c].value == values[c]
      invariant forall k :: 0 <= k < p ==> circ[sorted[k].slot] == Linked(sorted[k], k, half)
    {
      var c := sorted[p].slot;
      assert forall k :: 0 <= k < p ==> sorted[k].slot != c;
      circ := circ[c := circ[c].(side := Lower, index := p)];
      p := p + 1;
    }
    while p < n
      invariant half <= p <= n
      invariant |circ| == n
      invariant forall c :: 0 <= c < n ==> circ[c].value == values[c]
      invariant forall k :: 0 <= k < p ==> circ[sorted[k].slot] == Linked(sorted[k], k, half)
    {
      var c := sorted[p].slot;
      assert forall k :: 0 <= k < p ==> sorted[k].slot != c;
      circ := circ[c := circ[c].(side := Upper, index := p - half)];
      p := p + 1;
    }
  }

  /** After relinking, every entry's slot points back at it. */
  lemma RelinkedEntries(values: seq<int>, sorted: seq<Entry>, circ: seq<Slot>)
    requires |values| >= 3 && |values| % 2 == 1
    requires |sorted| == |values| == |circ|
    requires forall p :: 0 <= p < |sorted| ==> sorted[p].slot < |values|
    requires forall k :: 0 <= k < |sorted| ==> circ[sorted[k].slot] == Linked(sorted[k], k, |values| / 2 + 1)
    ensures var half := |values| / 2 + 1;
      EntriesLinked(Queue(circ, sorted[..half], sorted[half..], |values|, 0))
  {
    var half := |values| / 2 + 1;
    var q0 := Queue(circ, sorted[..half], sorted[half..], |values|, 0);
    forall i | 0 <= i < |q0.minHeap|
      ensures q0.minHeap[i].slot < |circ|
      ensures circ[q0.minHeap[i].slot] == Slot(q0.minHeap[i].value, Upper, i)
    {
      assert q0.minHeap[i] == sorted[half + i];
    }
  }

  /** After relinking, every slot points at an entry it owns. */
  lemma RelinkedSlots(values: seq<int>, sorted: seq<Entry>, circ: seq<Slot>)
    requires |values| >= 3 && |values| % 2 == 1
    requires |sorted| == |values| == |circ|
    requires forall p :: 0 <= p < |sorted| ==> sorted[p].slot < |values|
    requires forall c :: 0 <= c < |values| ==> Entry(values[c], c) in sorted
    requires forall k :: 0 <= k < |sorted| ==> circ[sorted[k].slot] == Linked(sorted[k], k, |values| / 2 + 1)
    ensures var half := |values| / 2 + 1;
      SlotsLinked(Queue(circ, sorted[..half], sorted[half..], |values|, 0))
  {
    var half := |values| / 2 + 1;
    var q0 := Queue(circ, sorted[..half], sorted[half..], |values|, 0);
    forall c | 0 <= c < |circ|
      ensures Points(q0, c)
    {
      var k :| 0 <= k < |sorted| && sorted[k] == Entry(values[c], c);
      assert circ[c] == Linked(sorted[k], k, half);
      if k >= half {
        assert q0.minHeap[k - half] == sorted[k];
      }
    }
  }

  /** After relinking, the heaps hold exactly the window's values. */
  lemma RelinkedContents(values: seq<int>, sorted: seq<Entry>, circ: seq<Slot>)
    requires |values| >= 3 && |values| % 2 == 1
    requires |sorted| == |values| == |circ|
    requires multiset(Vals(sorted)) == multiset(Vals(Tagged(values)))
    requires forall c :: 0 <= c < |values| ==> circ[c].value == values[c]
    ensures var half := |values| / 2 + 1;
      && Values(circ) == values
      && Contents(Queue(circ, sorted[..half], sorted[half..], |values|, 0))
  {
    var half := |values| / 2 + 1;
    assert Vals(sorted[..half]) + Vals(sorted[half..]) == Vals(sorted);
  }

  /** Building both heaps over the relinked split gives a valid queue: the
      split point of the ascending entries bounds the max heap from above
      and the min heap from below. */
  lemma BuiltValid(q0: Queue, q1: Queue, q2: Queue, sorted: seq<Entry>, half: nat)
    requires Shape(q0) && Coherent(q0) && Contents(q0)
    requires half == q0.size / 2 + 1 && |sorted| == q0.size && Ascending(Vals(sorted))
    requires HeapOf(q0, Lower) == sorted[..half] && HeapOf(q0, Upper) == sorted[half..]
    requires SameWindow(q0, q1) && HeapOf(q1, Upper) == HeapOf(q0, Upper) && Coherent(q1)
    requires multiset(Vals(HeapOf(q1, Lower))) == multiset(Vals(HeapOf(q0, Lower)))
    requires OrderedFrom(Lower, HeapOf(q1, Lower), 0, half, -1)
    requires SameWindow(q1, q2) && HeapOf(q2, Lower) == HeapOf(q1, Lower) && Coherent(q2)
    requires multiset(Vals(HeapOf(q2, Upper))) == multiset(Vals(HeapOf(q1, Upper)))
    requires OrderedFrom(Upper, HeapOf(q2, Upper), 0, half - 1, -1)
    ensures Valid(q2) && Values(q2.circular) == Values(q0.circular)
    ensures q2.size == q0.size && q2.start == q0.start
  {
    SplitTops(sorted, half, q2.maxHeap, q2.minHeap);
    assert multiset(Vals(q2.maxHeap) + Vals(q2.minHeap)) == multiset(Vals(q0.maxHeap) + Vals(q0.minHeap));
  }

  /** Rearranging the two parts of an ascending run split at `half` keeps
      the first part's head at most the second part's head. */
  lemma SplitTops(sorted: seq<Entry>, half: nat, lo: seq<Entry>, hi: seq<Entry>)
    requires Ascending(Vals(sorted)) && 0 < half < |sorted|
    requires |lo| == half && |hi| == |sorted| - half
    requires multiset(Vals(lo)) == multiset(Vals(sorted[..half]))
    requires multiset(Vals(hi)) == multiset(Vals(sorted[half..]))
    ensures lo[0].value <= hi[0].value
  {
    var b := sorted[half - 1].value;
    assert Vals(sorted)[half - 1] == b;
    forall i | 0 <= i < half
      ensures Vals(sorted[..half])[i] <= b
    {
      assert Vals(sorted[..half])[i] == Vals(sorted)[i];
    }
    forall i | 0 <= i < |sorted| - half
      ensures b <= Vals(sorted[half..])[i]
    {
      assert Vals(sorted[half..])[i] == Vals(sorted)[half + i];
    }
    AtMostPermutation(Vals(sorted[..half]), Vals(lo), b);
    AtLeastPermutation(Vals(sorted[half..]), Vals(hi), b);
    assert Vals(lo)[0] <= b <= Vals(hi)[0];
  }
}
