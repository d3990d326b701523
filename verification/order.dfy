/** Order: the abstract specification every median queue is measured
    against. The window's median is `SortedSeq(window)[size / 2]`; this
    module defines `SortedSeq`, shows it is the unique ascending
    permutation of its input, and gives the two recognition lemmas the
    three queue variants rely on (a split around a middle value, and a
    selected position). */
module Order {

  predicate Ascending(s: seq<int>) {
    forall i, j :: 0 <= i < j < |s| ==> s[i] <= s[j]
  }

  /** Every element of `s` is at most `b`. */
  predicate AtMost(s: seq<int>, b: int) {
    forall i :: 0 <= i < |s| ==> s[i] <= b
  }

  /** Every element of `s` is at least `b`. */
  predicate AtLeast(s: seq<int>, b: int) {
    forall i :: 0 <= i < |s| ==> b <= s[i]
  }

  lemma AscendingSlice(s: seq<int>, a: nat, b: nat)
    requires Ascending(s) && a <= b <= |s|
    ensures Ascending(s[a..b])
  {
    forall i, j | 0 <= i < j < b - a
      ensures s[a..b][i] <= s[a..b][j]
    {
      assert s[a..b][i] == s[a + i] && s[a..b][j] == s[a + j];
    }
  }

  /** Exchanging two positions keeps the contents. */
  lemma SwapContents<T>(s: seq<T>, a: nat, b: nat)
    requires a < |s| && b < |s|
    ensures multiset(s[a := s[b]][b := s[a]]) == multiset(s)
  {
  }

  /** Inserts `x` into an ascending sequence, keeping it ascending; the
      smaller of `x` and the old head comes first. */
  function Insert(x: int, s: seq<int>): (r: seq<int>)
    requires Ascending(s)
    ensures Ascending(r)
    ensures |r| == |s| + 1
    ensures r[0] == if |s| == 0 || x <= s[0] then x else s[0]
  {
    if |s| == 0 then [x]
    else if x <= s[0] then
      ConsAscending(x, s);
      [x] + s
    else
      AscendingTail(s);
      var rest := Insert(x, s[1..]);
      assert AtLeast(rest, s[0]) by {
        forall i | 0 <= i < |rest|
          ensures s[0] <= rest[i]
        {
          assert rest[0] <= rest[i];
        }
      }
      ConsAscending(s[0], rest);
      [s[0]] + rest
  }

  /** Insertion adds exactly one copy of `x` and keeps everything else. */
  lemma {:induction false} InsertContents(x: int, s: seq<int>)
    requires Ascending(s)
    ensures multiset(Insert(x, s)) == multiset(s) + multiset{x}
    decreases |s|
  {
    if |s| > 0 && s[0] < x {
      AscendingTail(s);
      InsertContents(x, s[1..]);
      assert s == [s[0]] + s[1..];
    }
  }

  /** Prepending a lower bound keeps a sequence ascending. */
  lemma ConsAscending(y: int, t: seq<int>)
    requires Ascending(t) && AtLeast(t, y)
    ensures Ascending([y] + t)
  {
    var r := [y] + t;
    forall i, j | 0 <= i < j < |r|
      ensures r[i] <= r[j]
    {
      assert r[j] == t[j - 1];
      if i > 0 {
        assert r[i] == t[i - 1];
      }
    }
  }

  /** The window sorted ascending; the reference every variant is proved against. */
  function SortedSeq(s: seq<int>): (r: seq<int>)
    ensures Ascending(r)
    ensures |r| == |s|
  {
    if |s| == 0 then []
    else
      Insert(s[0], SortedSeq(s[1..]))
  }

  /** `SortedSeq` is a permutation of its input. */
  lemma {:induction false} SortedSeqContents(s: seq<int>)
    ensures multiset(SortedSeq(s)) == multiset(s)
    decreases |s|
  {
    if |s| > 0 {
      var t := SortedSeq(s[1..]);
      SortedSeqContents(s[1..]);
      InsertContents(s[0], t);
      assert multiset(s) == multiset(s[1..]) + multiset{s[0]} by {
        assert s == [s[0]] + s[1..];
      }
    }
  }

  /** The least element of an ascending sequence comes first. */
  lemma AscendingHeadIsLeast(s: seq<int>, x: int)
    requires Ascending(s) && x in multiset(s)
    ensures |s| > 0 && s[0] <= x
  {
    assert x in s;
    var i :| 0 <= i < |s| && s[i] == x;
  }

  lemma AscendingTail(s: seq<int>)
    requires Ascending(s) && |s| > 0
    ensures Ascending(s[1..])
  {
    forall i, j | 0 <= i < j < |s| - 1
      ensures s[1..][i] <= s[1..][j]
    {
      assert s[1..][i] == s[i + 1] && s[1..][j] == s[j + 1];
    }
  }

  /** Two ascending sequences with the same elements are equal. */
  lemma {:induction false} AscendingUnique(a: seq<int>, b: seq<int>)
    requires Ascending(a) && Ascending(b)
    requires multiset(a) == multiset(b)
    ensures a == b
    decreases |a|
  {
    if |a| == 0 {
      assert |b| == |multiset(b)| == 0;
    } else {
      assert |b| == |multiset(b)| == |a|;
      assert a[0] in multiset(b);
      AscendingHeadIsLeast(b, a[0]);
      assert b[0] in multiset(a);
      AscendingHeadIsLeast(a, b[0]);
      assert a[0] == b[0];
      assert a == [a[0]] + a[1..];
      assert b == [b[0]] + b[1..];
      assert multiset(a[1..]) == multiset(b[1..]) by {
        assert multiset(a) == multiset([a[0]] + a[1..]) == multiset{a[0]} + multiset(a[1..]);
        assert multiset(b) == multiset([b[0]] + b[1..]) == multiset{b[0]} + multiset(b[1..]);
        assert multiset(a[1..]) == multiset(a) - multiset{a[0]};
        assert multiset(b[1..]) == multiset(b) - multiset{b[0]};
      }
      AscendingTail(a);
      AscendingTail(b);
      AscendingUnique(a[1..], b[1..]);
    }
  }

  /** `SortedSeq` depends only on the multiset of its input, and any
      ascending permutation of the input is it. */
  lemma SortedSeqIsUnique(s: seq<int>, t: seq<int>)
    requires Ascending(t) && multiset(t) == multiset(s)
    ensures SortedSeq(s) == t
  {
    SortedSeqContents(s);
    AscendingUnique(SortedSeq(s), t);
  }

  lemma SortedSeqOfPermutation(s: seq<int>, t: seq<int>)
    requires multiset(s) == multiset(t)
    ensures SortedSeq(s) == SortedSeq(t)
  {
    SortedSeqContents(t);
    SortedSeqIsUnique(s, SortedSeq(t));
  }

  /** An upper bound on every element survives any permutation. */
  lemma AtMostPermutation(s: seq<int>, t: seq<int>, b: int)
    requires multiset(s) == multiset(t) && AtMost(s, b)
    ensures AtMost(t, b)
  {
    forall i | 0 <= i < |t|
      ensures t[i] <= b
    {
      assert t[i] in multiset(s);
      var k :| 0 <= k < |s| && s[k] == t[i];
    }
  }

  /** A lower bound on every element survives any permutation. */
  lemma AtLeastPermutation(s: seq<int>, t: seq<int>, b: int)
    requires multiset(s) == multiset(t) && AtLeast(s, b)
    ensures AtLeast(t, b)
  {
    forall i | 0 <= i < |t|
      ensures b <= t[i]
    {
      assert t[i] in multiset(s);
      var k :| 0 <= k < |s| && s[k] == t[i];
    }
  }

  /** Two ascending runs joined around a separating value are ascending. */
  lemma JoinAscending(a: seq<int>, x: int, b: seq<int>)
    requires Ascending(a) && Ascending(b) && AtMost(a, x) && AtLeast(b, x)
    ensures Ascending(a + [x] + b)
  {
    var t := a + [x] + b;
    forall i, j | 0 <= i < j < |t|
      ensures t[i] <= t[j]
    {
      if j < |a| {
        assert t[i] == a[i] && t[j] == a[j];
      } else if j == |a| {
        assert t[i] == a[i];
      } else {
        assert t[j] == b[j - |a| - 1];
        if i < |a| {
          assert t[i] == a[i];
        } else if i > |a| {
          assert t[i] == b[i - |a| - 1];
        }
      }
    }
  }

  /** If `x` sits above everything in `lo` and below everything in `hi`,
      then `x` is the element of rank `n == |lo|` of any permutation `w`
      of `lo + [x] + hi`. */
  lemma MedianOfSplit(lo: seq<int>, x: int, hi: seq<int>, w: seq<int>, n: nat)
    requires AtMost(lo, x) && AtLeast(hi, x) && n == |lo|
    requires multiset(lo + [x] + hi) == multiset(w)
    ensures n < |SortedSeq(w)| && SortedSeq(w)[n] == x
  {
    var sl := SortedSeq(lo);
    var sh := SortedSeq(hi);
    SortedSeqContents(lo);
    SortedSeqContents(hi);
    AtMostPermutation(lo, sl, x);
    AtLeastPermutation(hi, sh, x);
    var t := sl + [x] + sh;
    JoinAscending(sl, x, sh);
    assert multiset(t) == multiset(w);
    SortedSeqIsUnique(w, t);
    assert t[|sl|] == x;
  }

  /** A head that bounds the rest of its run from above and a second run
      from below is the element of rank `n == |a| - 1` of the whole. */
  lemma SplitMedian(a: seq<int>, hi: seq<int>, w: seq<int>, n: nat)
    requires 0 < |a| && n == |a| - 1 && AtMost(a[1..], a[0]) && AtLeast(hi, a[0])
    requires multiset(a + hi) == multiset(w)
    ensures n < |SortedSeq(w)| && SortedSeq(w)[n] == a[0]
  {
    var lo := a[1..];
    assert a == [a[0]] + lo;
    assert multiset(lo + [a[0]] + hi) == multiset(w);
    MedianOfSplit(lo, a[0], hi, w, n);
  }

  /** An element at two positions occurs at least twice. */
  lemma RepeatCount<T>(a: seq<T>, i: nat, j: nat)
    requires i < j < |a|
    ensures a[i] == a[j] ==> multiset(a)[a[i]] >= 2
  {
    assert a == a[..j] + [a[j]] + a[j + 1..];
    assert a[..j][i] == a[i];
  }

  /** In a sequence without repetitions every element occurs at most once. */
  lemma {:induction false} DistinctAtMostOnce<T>(a: seq<T>, x: T)
    requires forall i, j :: 0 <= i < j < |a| ==> a[i] != a[j]
    ensures multiset(a)[x] <= 1
    decreases |a|
  {
    if |a| > 0 {
      var b := a[..|a| - 1];
      assert a == b + [a[|a| - 1]];
      DistinctAtMostOnce(b, x);
      assert forall i :: 0 <= i < |b| ==> b[i] != a[|a| - 1];
      assert a[|a| - 1] !in multiset(b);
    }
  }

  /** Everything before position `k` is at most `s[k]` and everything
      after is at least `s[k]`: the shape a selection algorithm leaves. */
  predicate SelectedAt(s: seq<int>, k: nat)
    requires k < |s|
  {
    && (forall i :: 0 <= i < k ==> s[i] <= s[k])
    && (forall j :: k < j < |s| ==> s[k] <= s[j])
  }

  /** A selected position holds the element of that rank. */
  lemma SelectedIsSortedAt(s: seq<int>, k: nat)
    requires k < |s| && SelectedAt(s, k)
    ensures SortedSeq(s)[k] == s[k]
  {
    SplitAtContents(s, k);
    SelectedSplit(s, k);
    MedianOfSplit(s[..k], s[k], s[k + 1..], s, k);
  }

  /** Cutting a sequence around one position keeps its contents. */
  lemma SplitAtContents(s: seq<int>, k: nat)
    requires k < |s|
    ensures multiset(s[..k] + [s[k]] + s[k + 1..]) == multiset(s)
  {
    assert s[..k] + [s[k]] + s[k + 1..] == s;
  }

  /** The two sides of a selected position are bounded by it. */
  lemma SelectedSplit(s: seq<int>, k: nat)
    requires k < |s| && SelectedAt(s, k)
    ensures AtMost(s[..k], s[k]) && AtLeast(s[k + 1..], s[k])
  {
    var lo, hi := s[..k], s[k + 1..];
    forall i | 0 <= i < |lo|
      ensures lo[i] <= s[k]
    {
      assert lo[i] == s[i];
    }
    forall i | 0 <= i < |hi|
      ensures s[k] <= hi[i]
    {
      assert hi[i] == s[k + 1 + i];
    }
  }

  /** The median of an ascending permutation is read off directly. */
  lemma AscendingMedian(s: seq<int>, window: seq<int>, k: nat)
    requires Ascending(s) && multiset(s) == multiset(window) && k < |s|
    ensures k < |SortedSeq(window)| && SortedSeq(window)[k] == s[k]
  {
    SortedSeqIsUnique(window, s);
  }
}
