/** SortedMedianQueue: the variant that keeps a fully sorted shadow of
    the window next to the ring buffer. Creation insertion-sorts the
    initial values; an update finds one copy of the evicted value in the
    shadow, overwrites it with the new value and bubbles that value left
    or right until the shadow is sorted again. The median is read at
    position `size / 2`. */
module SortedMedianQueue {
  import opened Order
  import opened Ring

  datatype Queue = Queue(circular: seq<int>, sorted: seq<int>, size: nat, start: nat)

  /** The shadow is an ascending permutation of the ring buffer. */
  ghost predicate Valid(q: Queue) {
    && q.size >= 1
    && |q.circular| == q.size
    && |q.sorted| == q.size
    && q.start < q.size
    && Ascending(q.sorted)
    && multiset(q.sorted) == multiset(q.circular)
  }

  /** In-place insertion sort: the outer loop grows a sorted prefix, the
      inner loop shifts larger elements right to open a hole for `tmp`. */
  method InsertionSort(values: seq<int>) returns (s: seq<int>)
    ensures |s| == |values|
    ensures Ascending(s)
    ensures multiset(s) == multiset(values)
  {
    s := values;
    var i := 0;
    while i < |s|
      invariant 0 <= i <= |s| == |values|
      invariant Ascending(s[..i])
      invariant multiset(s) == multiset(values)
    {
      var tmp := s[i];
      ghost var s0 := s;
      var j := i;
      while j > 0 && s[j - 1] > tmp
        invariant 0 <= j <= i
        invariant |s| == |s0|
        invariant forall k :: 0 <= k <= j ==> s[k] == s0[k]
        invariant forall k :: j < k <= i ==> s[k] == s0[k - 1] && s[k] > tmp
        invariant forall k :: i < k < |s| ==> s[k] == s0[k]
      {
        s := s[j := s[j - 1]];
        j := j - 1;
      }
      s := s[j := tmp];
      InsertStep(s0, s, i, j);
      i := i + 1;
    }
    assert s[..|s|] == s;
  }

  /** One outer step of the insertion sort: `s` is `s0` with `s0[i]`
      moved down to position `j`. */
  lemma InsertStep(s0: seq<int>, s: seq<int>, i: nat, j: nat)
    requires j <= i < |s0| == |s|
    requires Ascending(s0[..i])
    requires forall k :: 0 <= k < j ==> s[k] == s0[k]
    requires s[j] == s0[i]
    requires forall k :: j < k <= i ==> s[k] == s0[k - 1] && s[k] > s0[i]
    requires forall k :: i < k < |s| ==> s[k] == s0[k]
    requires j == 0 || s0[j - 1] <= s0[i]
    ensures Ascending(s[..i + 1])
    ensures multiset(s) == multiset(s0)
  {
    var tmp := s0[i];
    var lo, mid, rest := s0[..j], s0[j..i], s0[i + 1..];
    ShiftedShape(s0, s, i, j);
    assert s0 == lo + mid + [tmp] + rest by {
      assert s0 == s0[..i] + [tmp] + rest;
      assert s0[..i] == lo + mid;
    }
    assert s[..i + 1] == lo + [tmp] + mid;
    assert AtLeast(mid, tmp) by {
      forall k | 0 <= k < i - j
        ensures tmp <= mid[k]
      {
        assert mid[k] == s[j + k + 1];
      }
    }
    assert mid == s0[..i][j..];
    InsertStepOrder(s0[..i], j, tmp);
  }

  /** The shape the inner loop leaves: the prefix before `j`, then the
      moved value, then the shifted run, then the untouched suffix. */
  lemma ShiftedShape(s0: seq<int>, s: seq<int>, i: nat, j: nat)
    requires j <= i < |s0| == |s|
    requires forall k :: 0 <= k < j ==> s[k] == s0[k]
    requires s[j] == s0[i]
    requires forall k :: j < k <= i ==> s[k] == s0[k - 1]
    requires forall k :: i < k < |s| ==> s[k] == s0[k]
    ensures s == s0[..j] + [s0[i]] + s0[j..i] + s0[i + 1..]
  {
    var t := s0[..j] + [s0[i]] + s0[j..i] + s0[i + 1..];
    forall k | 0 <= k < |s|
      ensures s[k] == t[k]
    {
      if k < j {
        assert t[k] == s0[k];
      } else if k == j {
        assert t[k] == s0[i];
      } else if k <= i {
        assert t[k] == s0[j..i][k - j - 1];
      } else {
        assert t[k] == s0[i + 1..][k - i - 1];
      }
    }
  }

  lemma InsertStepOrder(p: seq<int>, j: nat, tmp: int)
    requires j <= |p| && Ascending(p)
    requires j == 0 || p[j - 1] <= tmp
    requires AtLeast(p[j..], tmp)
    ensures Ascending(p[..j] + [tmp] + p[j..])
  {
    AscendingSlice(p, 0, j);
    AscendingSlice(p, j, |p|);
    assert p[0..j] == p[..j] && p[j..|p|] == p[j..];
    assert AtMost(p[..j], tmp) by {
      forall k | 0 <= k < j
        ensures p[..j][k] <= tmp
      {
        assert p[k] <= p[j - 1];
      }
    }
    JoinAscending(p[..j], tmp, p[j..]);
  }

  /** mqCreate: the ring buffer is the initial values, the cursor is at
      slot 0, and the shadow is the sorted window. */
  method Create(values: seq<int>) returns (q: Queue)
    requires |values| >= 1
    ensures Valid(q)
    ensures q.circular == values && q.start == 0 && q.size == |values|
    ensures q.sorted == SortedSeq(values)
  {
    var sorted := InsertionSort(values);
    SortedSeqIsUnique(values, sorted);
    q := Queue(values, sorted, |values|, 0);
  }

  /** The linear search of mqUpdate: the first position holding the
      evicted value. It never runs off the end because the value is in
      the shadow. */
  method Locate(sorted: seq<int>, x: int) returns (i: nat)
    requires x in sorted
    ensures i < |sorted| && sorted[i] == x
    ensures x !in sorted[..i]
  {
    i := 0;
    while i < |sorted| && x != sorted[i]
      invariant 0 <= i <= |sorted|
      invariant x !in sorted[..i]
    {
      i := i + 1;
    }
  }

  /** All pairs not involving position `x` are in order. */
  ghost predicate AscendingExcept(s: seq<int>, x: nat) {
    forall p, q :: 0 <= p < q < |s| && p != x && q != x ==> s[p] <= s[q]
  }

  /** Moving the out-of-place value one step left keeps every other pair
      in order. */
  lemma BubbleLeftStep(s: seq<int>, i: nat, value: int)
    requires 0 < i < |s| && s[i] == value && AscendingExcept(s, i)
    ensures AscendingExcept(s[i := s[i - 1]][i - 1 := value], i - 1)
  {
    var t := s[i := s[i - 1]][i - 1 := value];
    forall p, q | 0 <= p < q < |t| && p != i - 1 && q != i - 1
      ensures t[p] <= t[q]
    {
      assert t[p] == (if p == i then s[i - 1] else s[p]);
      assert t[q] == (if q == i then s[i - 1] else s[q]);
    }
  }

  /** Moving the out-of-place value one step right keeps every other pair
      in order. */
  lemma BubbleRightStep(s: seq<int>, i: nat, value: int)
    requires 0 <= i < |s| - 1 && s[i] == value && AscendingExcept(s, i)
    ensures AscendingExcept(s[i := s[i + 1]][i + 1 := value], i + 1)
  {
    var t := s[i := s[i + 1]][i + 1 := value];
    forall p, q | 0 <= p < q < |t| && p != i + 1 && q != i + 1
      ensures t[p] <= t[q]
    {
      assert t[p] == (if p == i then s[i + 1] else s[p]);
      assert t[q] == (if q == i then s[i + 1] else s[q]);
    }
  }

  /** Once the value's left neighbour is no larger, everything left of it
      is no larger. */
  lemma LeftSettled(s: seq<int>, i: nat, value: int)
    requires i < |s| && AscendingExcept(s, i)
    requires i == 0 || s[i - 1] <= value
    ensures forall p :: 0 <= p < i ==> s[p] <= value
  {
    forall p | 0 <= p < i
      ensures s[p] <= value
    {
      if p < i - 1 {
        assert s[p] <= s[i - 1];
      }
    }
  }

  /** Both neighbours in order means the whole shadow is in order. */
  lemma Settled(s: seq<int>, i: nat)
    requires i < |s| && AscendingExcept(s, i)
    requires forall p :: 0 <= p < i ==> s[p] <= s[i]
    requires i == |s| - 1 || s[i] <= s[i + 1]
    ensures Ascending(s)
  {
    forall p, q | 0 <= p < q < |s|
      ensures s[p] <= s[q]
    {
      if p == i && q > i + 1 {
        assert s[i + 1] <= s[q];
      }
    }
  }

  lemma OverwriteExcept(s: seq<int>, i: nat, value: int)
    requires Ascending(s) && i < |s|
    ensures AscendingExcept(s[i := value], i)
  {
  }

  /** The left pass of mqUpdate: swap the value with its left neighbour
      while that neighbour is larger. Afterwards nothing to its left is
      larger. */
  method BubbleLeft(s0: seq<int>, i0: nat, value: int) returns (s: seq<int>, i: nat)
    requires i0 < |s0| && s0[i0] == value && AscendingExcept(s0, i0)
    ensures i <= i0 && |s| == |s0| && s[i] == value
    ensures AscendingExcept(s, i)
    ensures forall p :: 0 <= p < i ==> s[p] <= value
    ensures multiset(s) == multiset(s0)
  {
    s, i := s0, i0;
    if i != 0 {
      while i > 0 && s[i - 1] > value
        invariant 0 <= i <= i0 && |s| == |s0|
        invariant s[i] == value
        invariant AscendingExcept(s, i)
        invariant multiset(s) == multiset(s0)
      {
        BubbleLeftStep(s, i, value);
        SwapContents(s, i, i - 1);
        s := s[i := s[i - 1]][i - 1 := value];
        i := i - 1;
      }
    }
    LeftSettled(s, i, value);
  }

  /** The right pass of mqUpdate: swap the value with its right neighbour
      while that neighbour is smaller. Afterwards the shadow is sorted. */
  method BubbleRight(s0: seq<int>, i0: nat, value: int) returns (s: seq<int>)
    requires i0 < |s0| && s0[i0] == value && AscendingExcept(s0, i0)
    requires forall p :: 0 <= p < i0 ==> s0[p] <= value
    ensures |s| == |s0|
    ensures Ascending(s)
    ensures multiset(s) == multiset(s0)
  {
    s := s0;
    var i := i0;
    if i != |s| - 1 {
      while i < |s| - 1 && s[i + 1] < value
        invariant 0 <= i < |s| == |s0|
        invariant s[i] == value
        invariant AscendingExcept(s, i)
        invariant multiset(s) == multiset(s0)
        invariant forall p :: 0 <= p < i ==> s[p] <= value
      {
        BubbleRightStep(s, i, value);
        SwapContents(s, i, i + 1);
        s := s[i := s[i + 1]][i + 1 := value];
        i := i + 1;
      }
    }
    Settled(s, i);
  }

  /** Overwrites position `i0` of a sorted shadow with `value` and runs
      both passes: the result is the sorted shadow of the updated window. */
  method Reinsert(s0: seq<int>, i0: nat, value: int) returns (s: seq<int>)
    requires Ascending(s0) && i0 < |s0|
    ensures |s| == |s0|
    ensures Ascending(s)
    ensures multiset(s) == multiset(s0[i0 := value])
  {
    OverwriteExcept(s0, i0, value);
    var s1, i := BubbleLeft(s0[i0 := value], i0, value);
    s := BubbleRight(s1, i, value);
  }

  /** mqUpdate: overwrite the oldest slot, advance the cursor, and move
      the evicted value's copy in the shadow to where the new value
      belongs. */
  method Update(q: Queue, value: int) returns (r: Queue)
    requires Valid(q)
    ensures Valid(r)
    ensures r.circular == q.circular[q.start := value]
    ensures r.start == Advance(q.start, q.size) && r.size == q.size
    ensures Window(r.circular, r.start) == Window(q.circular, q.start)[1..] + [value]
    ensures multiset(r.sorted) == multiset(q.sorted) - multiset{q.circular[q.start]} + multiset{value}
    ensures r.sorted == SortedSeq(r.circular)
  {
    var evicted := q.circular[q.start];
    var circular := q.circular[q.start := value];
    var start := Advance(q.start, q.size);
    assert evicted in multiset(q.sorted);
    var i := Locate(q.sorted, evicted);
    var sorted := Reinsert(q.sorted, i, value);
    r := Queue(circular, sorted, q.size, start);
    PushEvictsOldest(q.circular, q.start, value);
    SortedSeqIsUnique(r.circular, r.sorted);
  }

  /** mqMedian: the element of rank `size / 2` of the window, read without
      changing the queue. */
  function Median(q: Queue): (m: int)
    requires Valid(q)
    ensures m == SortedSeq(q.circular)[q.size / 2]
  {
    AscendingMedian(q.sorted, q.circular, q.size / 2);
    q.sorted[q.size / 2]
  }
}
