/** Ring: the circular buffer all three median queues keep their raw
    window in. `start` is the eviction cursor: the slot holding the
    oldest value, overwritten by the next update. */
module Ring {

  /** The cursor after one update: one slot further, wrapping at `size`. */
  function Advance(start: nat, size: nat): (r: nat)
    requires start < size
    ensures r < size
    ensures r == start + 1 || (start == size - 1 && r == 0)
  {
    (start + 1) % size
  }

  /** The window in arrival order, oldest first. */
  function Window<T>(circular: seq<T>, start: nat): (w: seq<T>)
    requires start <= |circular|
    ensures |w| == |circular|
    ensures multiset(w) == multiset(circular)
  {
    assert circular == circular[..start] + circular[start..];
    circular[start..] + circular[..start]
  }

  /** Position `i` of the window is slot `(start + i) % size` of the
      buffer: the index arithmetic the copy loops use. */
  lemma WindowIndex<T>(circular: seq<T>, start: nat, i: nat)
    requires start < |circular| && i < |circular|
    ensures Window(circular, start)[i] == circular[(start + i) % |circular|]
  {
    var n := |circular|;
    var w := Window(circular, start);
    WrapOnce(start + i, n);
    if start + i < n {
      assert w[i] == circular[start..][i];
    } else {
      assert w[i] == circular[..start][i - (n - start)];
    }
  }

  /** An index below twice the size wraps at most once. */
  lemma WrapOnce(x: nat, n: nat)
    requires x < 2 * n
    ensures x % n == if x < n then x else x - n
  {
    var q := x / n;
    MultipleBounds(q, n);
    MultipleBounds(q - 1, n);
    assert x == q * n + x % n && 0 <= x % n < n;
    assert (q - 1) * n == q * n - n;
  }

  /** A positive multiple of `n` is at least `n`; a negative one at most `-n`. */
  lemma {:induction false} MultipleBounds(q: int, n: int)
    requires 0 <= n
    ensures q >= 1 ==> q * n >= n
    ensures q <= -1 ==> q * n <= -n
    decreases if q < 0 then -q else q
  {
    if q > 1 {
      MultipleBounds(q - 1, n);
      assert q * n == (q - 1) * n + n;
    } else if q < -1 {
      MultipleBounds(q + 1, n);
      assert q * n == (q + 1) * n - n;
    }
  }

  /** One update evicts the oldest value and appends the new one: the
      buffer behaves as a FIFO queue of fixed length. */
  lemma PushEvictsOldest<T>(circular: seq<T>, start: nat, v: T)
    requires start < |circular|
    ensures Window(circular[start := v], Advance(start, |circular|))
         == Window(circular, start)[1..] + [v]
  {
    var n := |circular|;
    var c' := circular[start := v];
    if start < n - 1 {
      assert c'[start + 1..] == circular[start + 1..];
      assert c'[..start + 1] == circular[..start] + [v];
      assert (circular[start..] + circular[..start])[1..] == circular[start + 1..] + circular[..start];
    } else {
      assert c' == circular[..start] + [v];
      assert (circular[start..] + circular[..start])[1..] == circular[..start];
    }
  }

  /** Updates applied in order, each at the cursor, each advancing it. */
  function PushAll<T>(circular: seq<T>, start: nat, vs: seq<T>): (r: (seq<T>, nat))
    requires start < |circular|
    ensures |r.0| == |circular| && r.1 < |circular|
    decreases |vs|
  {
    if |vs| == 0 then (circular, start)
    else PushAll(circular[start := vs[0]], Advance(start, |circular|), vs[1..])
  }

  /** After `k <= size` updates the window is the `size - k` youngest
      original values followed by the new ones, oldest first; after
      exactly `size` updates every original value has been evicted. */
  lemma {:induction false} PushAllWindow<T>(circular: seq<T>, start: nat, vs: seq<T>)
    requires start < |circular| && |vs| <= |circular|
    ensures var r := PushAll(circular, start, vs);
            Window(r.0, r.1) == Window(circular, start)[|vs|..] + vs
    decreases |vs|
  {
    if |vs| > 0 {
      var c' := circular[start := vs[0]];
      var s' := Advance(start, |circular|);
      var w := Window(circular, start);
      var n := |vs|;
      PushAllWindow(c', s', vs[1..]);
      assert Window(c', s')[n - 1..] == w[n..] + [vs[0]] by {
        PushEvictsOldest(circular, start, vs[0]);
        DropAfterShift(w, vs[0], n);
      }
      AppendAfterHead(w[n..], vs);
    }
  }

  /** Appending the head and then the tail appends the whole. */
  lemma AppendAfterHead<T>(a: seq<T>, vs: seq<T>)
    requires |vs| > 0
    ensures a + [vs[0]] + vs[1..] == a + vs
  {
    assert vs == [vs[0]] + vs[1..];
  }

  /** Dropping `n - 1` elements after a shift drops `n` before it. */
  lemma DropAfterShift<T>(w: seq<T>, x: T, n: nat)
    requires 1 <= n <= |w|
    ensures (w[1..] + [x])[n - 1..] == w[n..] + [x]
  {
  }
}
