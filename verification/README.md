# Sliding-window median queues

A model of the three interchangeable median queues of the repository,
each with the same four-call interface: `mqCreate` builds a queue over an
initial window, `mqUpdate` evicts the oldest value and appends a new one,
`mqMedian` reports the median, and `mqFree` releases the queue. All three
keep the raw window in a ring buffer `circular` with an eviction cursor
`start`, and all three report the element of rank `size / 2` of the
window.

- `HeapMedianQueue.c` keeps the lower `size / 2 + 1` values in a max heap
  and the rest in a min heap. Heap entries and ring-buffer slots point at
  each other. An update is classified into one of four cases
  (`determinPlace`) and repaired by `heapReplace` with sift-up, sift-down
  and, in two cases, an exchange of the two heap tops.
- `SortedMedianQueue.c` keeps a sorted shadow of the window. An update
  finds one copy of the evicted value, overwrites it and bubbles the new
  value left or right.
- `QuickMedianQueue.c` copies the window oldest-first on every update and
  runs a Lomuto-partition quickselect on the copy.

Every variant is proved against one reference: `Order.SortedSeq(w)` is
the window sorted ascending (an insertion sort, shown to be the unique
ascending permutation), and the median is `SortedSeq(window)[size / 2]`.
`Ring.Window(circular, start)` is the window in arrival order.

Files, one module each:

- `order.dfy` (`Order`): the reference order, uniqueness of the sorted
  permutation, and the recognition lemmas for a median.
- `ring.dfy` (`Ring`): the cursor and the FIFO behaviour of the buffer.
- `heap_state.dfy` (`HeapState`): the heap variant's data and its three
  swap primitives.
- `heap_sift.dfy` (`HeapSift`): sift-down, sift-up and heap building, with
  the source's tree shape.
- `heap_cases.dfy` (`HeapCases`): the ordering argument behind each case of
  `heapReplace`, stated on the heap sequences alone.
- `heap_queue.dfy` (`HeapMedianQueue`): creation, classification,
  replacement, update and median of the heap variant, and the case 1
  defect.
- `sorted_queue.dfy` (`SortedMedianQueue`) and `quick_queue.dfy`
  (`QuickMedianQueue`): the other two variants.

The heap variant's tree is the source's own. On 0-based arrays the
children of node `i` are `2 * i` and `2 * i + 1` and its parent is `i / 2`,
so node 0 has the single child 1. This is a consistent tree and the model
keeps it. The in-place array code is modelled on immutable sequences:
each C routine becomes a function or method returning the new arrays.

Three facts about the C source shape the model. The sorted and quick
variants read position `size / 2`, and for even sizes that is the upper
of the two middle values, not the lower median `(size - 1) / 2`. The
`2 * i` / `2 * i + 1` child formula is consistent, and the model keeps
it. The unconditional exchange of the heap tops in case 1
(HeapMedianQueue.c:389) does not always restore the partition between
the heaps (see Findings).

## Model

| member | source | states |
|---|---|---|
| Order.SortedSeqIsUnique | SortedMedianQueue.c:89-92 | any ascending permutation of a window is its sorted form, so a sorted shadow read at `size / 2` gives the median |
| Order.AscendingMedian | SortedMedianQueue.c:89-92 | position `k` of an ascending permutation of the window is the element of rank `k` of the window |
| Order.SelectedIsSortedAt | QuickMedianQueue.c:123-127 | a position with nothing larger before it and nothing smaller after it holds the element of that rank |
| Order.MedianOfSplit | HeapMedianQueue.c:428-433 | a value bounding one part from above and another from below is the element of rank `|lower part|` of their union |
| Order.SplitMedian | HeapMedianQueue.c:428-433 | the head of a run that bounds the rest of the run and a second run is the element of rank `|run| - 1` of both together |
| Ring.Advance | HeapMedianQueue.c:423 | the cursor stays below `size`; it moves one slot on, or wraps to 0 from the last slot |
| Ring.WindowIndex | QuickMedianQueue.c:117-118 | position `i` of the oldest-first window is slot `(start + i) % size` |
| Ring.PushEvictsOldest | HeapMedianQueue.c:421-423 | writing at the cursor and advancing it drops the oldest value of the window and appends the new one |
| Ring.PushAllWindow | SortedMedianQueue.c:63-65 | after `k <= size` updates the window is the `size - k` youngest old values followed by the new ones, in order |
| HeapState.SwapIn | HeapMedianQueue.c:54-83 | exactly entries `a` and `b` of one heap are exchanged; the other heap and the window's values are unchanged; the contents are kept; the back-references stay consistent |
| HeapState.SwapBetween | HeapMedianQueue.c:95-107 | entry `iMax` of the max heap and entry `iMin` of the min heap change places; the two heaps hold the same values together; the window is unchanged; both owners' index and side follow their entries |
| HeapState.ExchangeContents | HeapMedianQueue.c:98-100 | exchanging one element of each of two runs keeps the contents of the two together |
| HeapState.SwapTopsIndex | HeapMedianQueue.c:389-390 | exchanging the two tops leaves every slot's recorded index unchanged, so the evicted slot still names where its entry stopped |
| HeapSift.RootDominates | HeapMedianQueue.c:186-195 | in the source's tree (parent `j / 2`), heap order on every edge makes the root dominate every entry |
| HeapSift.DominantChild | HeapMedianQueue.c:123-132 | the chosen node is `i` or one of its children below `end`; it dominates `i` and all of `i`'s children; a child is chosen only if it strictly dominates `i` |
| HeapSift.SiftDownHeap | HeapMedianQueue.c:118-170 | sift-down keeps the heap's length |
| HeapSift.SiftDownContents | HeapMedianQueue.c:118-170 | sift-down only exchanges entries: the heap's entries and its values are the same multisets before and after |
| HeapSift.SiftDown | HeapMedianQueue.c:118-170 | on the queue, the heap moves as `SiftDownHeap`, the other heap and the window's values are unchanged, and the back-references stay consistent |
| HeapSift.SiftDownOrders | HeapMedianQueue.c:118-170 | when only node `i` may be out of place and its parent dominates its children, sift-down restores heap order below the starting level |
| HeapSift.SiftUpHeap | HeapMedianQueue.c:181-228 | sift-up keeps the heap's length and reports a position holding the entry it started from |
| HeapSift.SiftUpContents | HeapMedianQueue.c:181-228 | sift-up only exchanges entries: the heap's entries and its values are the same multisets before and after |
| HeapSift.SiftUp | HeapMedianQueue.c:181-228 | on the queue, the heap moves as `SiftUpHeap`, the other heap and the window's values are unchanged, and the back-references stay consistent |
| HeapSift.SiftUpOrders | HeapMedianQueue.c:181-228 | after one entry is overwritten, sift-up leaves heap order broken at most below the entry's final position; an entry dominating the whole heap reaches the root |
| HeapSift.RisePosition | HeapMedianQueue.c:388-390 | after sift-up, the evicted slot records the index where its entry stopped, which is where the following sift-down starts |
| HeapSift.BuildHeap | HeapMedianQueue.c:238-260 | sifting down every node from `end / 2` to 0 gives heap order on `[0, end)` while keeping the contents, the other heap, the window and the back-references |
| HeapCases.WithinHeap | HeapMedianQueue.c:392-401 | cases 2 and 3 on one heap: the result holds the heap's values with the evicted one replaced by the new one |
| HeapCases.WithinCase | HeapMedianQueue.c:392-401 | cases 2 and 3 turn a heap with one entry overwritten back into a heap, and a bound on the old top and the new value still bounds the new top |
| HeapCases.RiseToTop | HeapMedianQueue.c:403-404 | a new value dominating the old top rises to the top, and the heap below it stays ordered and bounded by the other heap's top |
| HeapCases.ExchangeHeaps | HeapMedianQueue.c:386-391 | cases 1 and 4 on the two heaps: sizes are kept and the first heap's new top is the other heap's old top |
| HeapCases.ExchangeCase | HeapMedianQueue.c:402-407 | when the new value dominates the first heap's top and the other heap's top dominates it from the other side, both heaps come out as heaps and the other heap's old top still bounds its new top |
| HeapCases.RiseSplit | HeapMedianQueue.c:386-388 | a value strictly between the two tops, written into the max heap, rises to its top with the rest of the max heap below it and the min heap above it |
| HeapCases.RiseMedian | HeapMedianQueue.c:386-388 | such a value is the median of the new window |
| HeapMedianQueue.PartitionHolds | HeapMedianQueue.c:320-322 | in a valid queue every max-heap value is at most every min-heap value |
| HeapMedianQueue.HeapMedian | HeapMedianQueue.c:428-433 | in a valid queue the max heap's top is the element of rank `size / 2` of the window |
| HeapMedianQueue.Median | HeapMedianQueue.c:428-433 | mqMedian returns the median of the window |
| HeapMedianQueue.Classify | HeapMedianQueue.c:340-366 | the new value belongs to the upper half exactly when it exceeds the max heap's top; the evicted value's heap is the one its slot names |
| HeapMedianQueue.Overwrite | HeapMedianQueue.c:421-422 | the evicted slot and its heap entry take the new value; nothing else in either heap changes; the queue stays well-formed and its contents follow the window |
| HeapMedianQueue.Within | HeapMedianQueue.c:392-401 | cases 2 and 3 on the queue: the window gets the new value at the cursor, the heap moves as `WithinHeap`, the other heap is untouched |
| HeapMedianQueue.RiseAndSwap | HeapMedianQueue.c:387-389 | overwrite, sift up and exchange the tops: the heaps are as stated and the evicted slot records where its entry stopped |
| HeapMedianQueue.Exchange | HeapMedianQueue.c:386-391 | cases 1 and 4 on the queue: the window gets the new value at the cursor and the heaps move as `ExchangeHeaps` |
| HeapMedianQueue.WithinKeepsValid | HeapMedianQueue.c:392-401 | cases 2 and 3 keep the queue valid, whenever the new value lies on the evicted heap's side of the other heap's top |
| HeapMedianQueue.ExchangeKeepsValid | HeapMedianQueue.c:402-407 | cases 1 and 4 keep the queue valid, whenever the new value lies on the far side of the other heap's top |
| HeapMedianQueue.HeapReplaceAsWritten | HeapMedianQueue.c:382-414 | heapReplace as written keeps the queue valid except in case 1 with a new value below the min heap's top; with the value strictly between the tops, the reported top is not the new median |
| HeapMedianQueue.HeapReplace | HeapMedianQueue.c:382-414 | with case 1 guarded, every update keeps the queue valid over the rewritten window |
| HeapMedianQueue.Update | HeapMedianQueue.c:416-426 | the new value is written into the slot under the cursor and the cursor moves one slot on, wrapping at `size`; so the oldest value is evicted and the new one appended, the queue stays valid and its size is unchanged, and the reported median is the median of the new window |
| HeapMedianQueue.UpdateAsWritten | HeapMedianQueue.c:416-426 | as written, the slot under the cursor gets the new value, the cursor moves one slot on, and the window moves on in the same way, but the queue stays valid only outside the defective case 1, where the reported top differs from the median |
| HeapMedianQueue.MoveCursor | HeapMedianQueue.c:423 | moving the cursor keeps shape, back-references, contents and validity |
| HeapMedianQueue.AsWrittenCaseOneFails | HeapMedianQueue.c:386-391 | in case 1 with the new value strictly between the tops, the new value is the median of the new window, yet the exchange puts the min heap's old top on the max heap |
| HeapMedianQueue.CounterexampleOneTwoTen | HeapMedianQueue.c:386-391 | over window `[1, 2, 10]` with the cursor on slot 0, updating with 5 is case 1; the new window's median is 5, but 10 ends on top of the max heap |
| HeapMedianQueue.OneTwoTenUpdate | HeapMedianQueue.c:386-391 | creating over `[1, 2, 10]` and updating with 5 reports 10 where the median is 5 |
| HeapMedianQueue.SortEntries | HeapMedianQueue.c:308 | the qsort returns the entries in ascending order of value, as a permutation |
| HeapMedianQueue.SortedSlots | HeapMedianQueue.c:300-308 | after sorting, every slot is named by exactly one entry, holding that slot's value |
| HeapMedianQueue.Relink | HeapMedianQueue.c:311-318 | the relink loops point each slot at its entry's position, in the max heap below `size / 2 + 1` and in the min heap after, and keep every slot's value |
| HeapMedianQueue.RelinkedValid | HeapMedianQueue.c:311-318 | the relinked split is well-formed, its back-references agree, and its heaps hold the window's values |
| HeapMedianQueue.SortAndLink | HeapMedianQueue.c:296-318 | the sorted entries split at `size / 2 + 1`, the lower part into the max heap, the upper into the min heap, with every slot linked |
| HeapMedianQueue.SplitTops | HeapMedianQueue.c:320-322 | rearranging the two parts of an ascending run split at `half` keeps the first part's head at most the second part's head |
| HeapMedianQueue.BuiltValid | HeapMedianQueue.c:320-322 | building both heaps over the sorted split gives a valid queue over the same window |
| HeapMedianQueue.Create | HeapMedianQueue.c:273-325 | mqCreate gives a valid queue whose window is `values`, with the cursor on slot 0 |
| SortedMedianQueue.InsertionSort | SortedMedianQueue.c:44-51 | the insertion sort returns an ascending permutation of its input |
| SortedMedianQueue.InsertStep | SortedMedianQueue.c:47-50 | one outer step grows the ascending prefix by one and keeps the contents |
| SortedMedianQueue.Create | SortedMedianQueue.c:15-53 | the ring buffer is `values`, the cursor is on slot 0, and the shadow is the sorted window |
| SortedMedianQueue.Locate | SortedMedianQueue.c:67-69 | the search stops inside the shadow at the first copy of the evicted value |
| SortedMedianQueue.BubbleLeft | SortedMedianQueue.c:72-78 | the left pass keeps the contents, moves the value left only, and leaves nothing larger to its left |
| SortedMedianQueue.BubbleRight | SortedMedianQueue.c:80-86 | after the right pass the shadow is ascending again, with the same contents |
| SortedMedianQueue.Reinsert | SortedMedianQueue.c:70-86 | overwriting one position of a sorted shadow and running both passes gives the ascending permutation of the updated contents |
| SortedMedianQueue.Update | SortedMedianQueue.c:61-87 | only the evicted slot changes, the cursor advances modulo `size`, the window drops its oldest value and appends the new one, and the shadow is the sorted new window |
| SortedMedianQueue.Median | SortedMedianQueue.c:89-92 | mqMedian returns the element of rank `size / 2` of the window |
| QuickMedianQueue.Partition | QuickMedianQueue.c:31-48 | the partition permutes its range and puts the old last element at `p`, with nothing larger before it and only larger elements after it |
| QuickMedianQueue.QuickMed | QuickMedianQueue.c:60-70 | quickselect permutes its range so that position `med` holds the element of rank `med` |
| QuickMedianQueue.Create | QuickMedianQueue.c:72-104 | the ring buffer is `values`, the cursor is on slot 0, and the median position of the copy is selected |
| QuickMedianQueue.CopyWindow | QuickMedianQueue.c:117-118 | the copy loop produces the window oldest-first, a permutation of the buffer |
| QuickMedianQueue.Update | QuickMedianQueue.c:112-121 | only the evicted slot changes, the cursor advances modulo `size`, the window drops its oldest value and appends the new one, and the copy has its median selected |
| QuickMedianQueue.Median | QuickMedianQueue.c:123-127 | mqMedian returns the element of rank `size / 2` of the window |

## Left out

- Memory management: `malloc`, `free`, the allocation-failure paths and `mqFree` are not modelled. Queues are immutable values.
- `SortedMedianQueue.c:33` and `QuickMedianQueue.c:90` test the ring buffer instead of the freshly allocated shadow for a failed allocation. Since allocation is out of scope, this is noted, not modelled.
- Null handles: every `if (!mq)` early return is left out. So are the positive-infinity sentinel of `mqMedian` and the `-1` results of `determinPlace` and `heapReplace`.
- The `printf` diagnostics and the `default` branch of `heapReplace` (`HeapMedianQueue.c:408-410`) are left out. `Classify` returns one of the four cases for every input, so the default branch cannot be reached.
- Values are `int`, not `double`. The source only compares values, so NaN and other floating-point behaviour are out. `compareDouble`'s subtraction becomes a plain comparison.
- `size_t` arithmetic is unbounded. The source cannot overflow it for any window that fits in memory.
- HeapMedianQueue.SortEntries: the C library `qsort` is foreign code. It is modelled by an insertion sort whose contract is "an ascending permutation", and only that contract is used.
- The min heap is carved out of the max heap's allocation (`HeapMedianQueue.c:297`), and sides are told apart by comparing pointers (`HeapMedianQueue.c:346`). The model uses two separate sequences and a `Side` value.
- Heap variant sizes: only odd sizes of at least 3 are modelled. For even sizes the min heap is built and sifted with `end = size / 2`, one entry past its end. For size 1, case 1 exchanges with a min heap that has no entries.
- Size 0 is excluded in every variant: `% size` divides by zero there.
- HeapMedianQueue.Overwrite: `mqUpdate` writes the ring buffer (`HeapMedianQueue.c:421`) and the first statement of each case writes the heap. The two writes touch different arrays, so the model does both in one step.

## Findings

| source | as written | input that shows it | evidently intended | confidence | as-written member | corrected member |
|---|---|---|---|---|---|---|
| HeapMedianQueue.c:386-391 | case 1 (new value above the max heap's top, evicted value in the max heap) always exchanges the two heap tops | `mqCreate` over `[1, 2, 10]`, then `mqUpdate` with 5: the new window `[5, 2, 10]` has median 5, but `mqMedian` reports 10 | exchange only when the new value is at least the min heap's top; otherwise the value stays in the max heap as in case 3 | not executed | HeapMedianQueue.AsWrittenCaseOneFails | HeapMedianQueue.HeapReplace |
