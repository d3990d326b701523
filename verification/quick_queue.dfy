/** QuickMedianQueue: the variant that keeps only the ring buffer between
    updates and re-selects the median from a fresh copy of the window
    every time, with a Lomuto-partition quickselect. */
module QuickMedianQueue {
  import opened Order
  import opened Ring

  datatype Queue = Queue(circular: seq<int>, sorted: seq<int>, size: nat, start: nat)

  /** The scratch copy is a permutation of the ring buffer in which
      position `size / 2` has been selected. */
  ghost predicate Valid(q: Queue) {
    && q.size >= 1
    && |q.circular| == q.size
    && |q.sorted| == q.size
    && q.start < q.size
    && multiset(q.sorted) == multiset(q.circular)
    && SelectedAt(q.sorted, q.size / 2)
  }

  /** Lomuto partition of a range around its last element. The range is
      the whole of `s`; `end` of the source is `|s| - 1`. The pivot lands
      at `p`, with everything no larger before it and everything larger
      after it. */
  method Partition(s: seq<int>) returns (t: seq<int>, p: nat)
    requires |s| >= 1
    ensures p < |s| && |t| == |s|
    ensures multiset(t) == multiset(s)
    ensures t[p] == s[|s| - 1]
    ensures forall k :: 0 <= k < p ==> t[k] <= t[p]
    ensures forall k :: p < k < |t| ==> t[p] < t[k]
  {
    var end := |s| - 1;
    var pivot := s[end];
    t := s;
    var i := 0;
    var j := 0;
    while j < end
      invariant 0 <= i <= j <= end
      invariant |t| == |s| && t[end] == pivot
      invariant multiset(t) == multiset(s)
      invariant forall k :: 0 <= k < i ==> t[k] <= pivot
      invariant forall k :: i <= k < j ==> pivot < t[k]
    {
      if t[j] <= pivot {
        i := i + 1;
        ScanStep(t, i - 1, j, pivot);
        t := t[i - 1 := t[j]][j := t[i - 1]];
      }
      j := j + 1;
    }
    PivotStep(t, i, pivot);
    t := t[end := t[i]][i := t[end]];
    p := i;
  }

  /** One swap of the partition scan keeps the two regions apart. */
  lemma ScanStep(t: seq<int>, i: nat, j: nat, pivot: int)
    requires i <= j < |t| - 1 && t[|t| - 1] == pivot && t[j] <= pivot
    requires forall k :: 0 <= k < i ==> t[k] <= pivot
    requires forall k :: i <= k < j ==> pivot < t[k]
    ensures var t' := t[i := t[j]][j := t[i]];
      && multiset(t') == multiset(t) && t'[|t| - 1] == pivot
      && (forall k :: 0 <= k < i + 1 ==> t'[k] <= pivot)
      && (forall k :: i + 1 <= k < j + 1 ==> pivot < t'[k])
  {
    SwapContents(t, i, j);
  }

  /** The closing swap puts the pivot between the two regions. */
  lemma PivotStep(t: seq<int>, i: nat, pivot: int)
    requires i < |t| && t[|t| - 1] == pivot
    requires forall k :: 0 <= k < i ==> t[k] <= pivot
    requires forall k :: i <= k < |t| - 1 ==> pivot < t[k]
    ensures var t' := t[|t| - 1 := t[i]][i := t[|t| - 1]];
      && multiset(t') == multiset(t) && t'[i] == pivot
      && (forall k :: 0 <= k < i ==> t'[k] <= pivot)
      && (forall k :: i < k < |t| ==> pivot < t'[k])
  {
    SwapContents(t, |t| - 1, i);
  }

  /** Quickselect: afterwards position `med` holds the element of rank
      `med`, with no larger element before it and no smaller one after. The
      recursion is on a strictly shorter range each time: the prefix before
      the pivot, or the suffix after it (the source's `signal + pivot + 1`). */
  method QuickMed(s: seq<int>, med: nat) returns (t: seq<int>)
    requires med < |s|
    ensures |t| == |s|
    ensures multiset(t) == multiset(s)
    ensures SelectedAt(t, med)
    decreases |s|
  {
    if |s| > 1 {
      var u, p := Partition(s);
      assert u == u[..p] + u[p..];
      if p > med {
        var l := QuickMed(u[..p], med);
        t := l + u[p..];
        AtMostPermutation(u[..p], l, u[p]);
        forall j | med < j < |t|
          ensures t[med] <= t[j]
        {
          if j >= p {
            assert t[j] == u[j];
          }
        }
      } else if p < med {
        var r := QuickMed(u[p + 1..], med - (p + 1));
        assert u == u[..p + 1] + u[p + 1..];
        t := u[..p + 1] + r;
        assert AtLeast(u[p + 1..], u[p]);
        AtLeastPermutation(u[p + 1..], r, u[p]);
        forall i | 0 <= i < med
          ensures t[i] <= t[med]
        {
          if i <= p {
            assert t[i] == u[i];
            assert t[med] == r[med - (p + 1)];
          }
        }
        forall j | med < j < |t|
          ensures t[med] <= t[j]
        {
          assert t[j] == r[j - (p + 1)];
        }
      } else {
        t := u;
      }
    } else {
      t := s;
    }
  }

  /** mqCreate: the ring buffer is the initial values, the cursor is at
      slot 0, and the median has been selected in the scratch copy. */
  method Create(values: seq<int>) returns (q: Queue)
    requires |values| >= 1
    ensures Valid(q)
    ensures q.circular == values && q.start == 0 && q.size == |values|
  {
    var sorted := QuickMed(values, |values| / 2);
    q := Queue(values, sorted, |values|, 0);
  }

  /** The copy loop of mqUpdate, oldest value first. */
  function CopyWindow(circular: seq<int>, start: nat): (w: seq<int>)
    requires start < |circular|
    ensures w == Window(circular, start)
    ensures multiset(w) == multiset(circular)
  {
    var n := |circular|;
    var w := seq(n, i requires 0 <= i < n => circular[(start + i) % n]);
    assert forall i | 0 <= i < n :: w[i] == Window(circular, start)[i] by {
      forall i | 0 <= i < n
        ensures w[i] == Window(circular, start)[i]
      {
        WindowIndex(circular, start, i);
      }
    }
    w
  }

  /** mqUpdate: overwrite the oldest slot, advance the cursor, copy the
      window oldest-first and select its median again. */
  method Update(q: Queue, value: int) returns (r: Queue)
    requires Valid(q)
    ensures Valid(r)
    ensures r.circular == q.circular[q.start := value]
    ensures r.start == Advance(q.start, q.size) && r.size == q.size
    ensures Window(r.circular, r.start) == Window(q.circular, q.start)[1..] + [value]
  {
    var circular := q.circular[q.start := value];
    var start := Advance(q.start, q.size);
    var copy := CopyWindow(circular, start);
    var sorted := QuickMed(copy, q.size / 2);
    r := Queue(circular, sorted, q.size, start);
    PushEvictsOldest(q.circular, q.start, value);
  }

  /** mqMedian: the element of rank `size / 2` of the window, read without
      changing the queue. */
  function Median(q: Queue): (m: int)
    requires Valid(q)
    ensures m == SortedSeq(q.circular)[q.size / 2]
  {
    SelectedIsSortedAt(q.sorted, q.size / 2);
    SortedSeqOfPermutation(q.sorted, q.circular);
    q.sorted[q.size / 2]
  }
}
