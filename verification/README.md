# bottleneck moving median and non-reducing axis functions in Dafny

This project models two groups of sequential numeric kernels from the
`bottleneck` C extension and proves what they compute.

1. **The moving-median double heap** (`move_median.c`).
   - Two 8-ary heaps share one array of `window` node slots. The small
     heap is a max-heap and the large heap is a min-heap.
   - A FIFO list threads the nodes in arrival order. Once the window is
     full, every new value overwrites the oldest node, which is then
     sifted into place.
   - The median is read off the two heap heads.
   - The `mm_*` functions assume that every value is a number.
   - The `zz_*` functions accept NaN. A NaN is stored as -inf in the small
     heap or +inf in the large heap and is listed in that heap's doubly
     linked NaN list. NaNs are moved between the heaps so that the
     non-NaN counts of the two heaps differ by at most one.
2. **The non-reducing axis functions** (`nonreduce_axis_template.c`), each
   on one 1-D slice:
   - `argpartsort`: Wirth/Hoare selection with a median-of-three pivot. It
     moves a value buffer and an index buffer together.
   - The `n` range check of `partsort` and `argpartsort`.
   - `rankdata` and `nanrankdata`: average ranks for ties, computed from
     the sorting permutation.
   - `push`: forward-fill of NaNs, limited to a distance `n`.
   - The argument parsers `parse_partsort`, `parse_rankdata` and
     `parse_push`, and the `axis`/`n` normalisation of `nonreducer_axis`.

Values are mathematical integers. A NaN input is `None` of an `Option`. A
heap node holds `Ext`, which is `NegInf`, `Fin(v)` or `PosInf`. Means and
ranks are `real`.

Each heap file contains a NaN-free handle (`DoubleHeap.MM`) or a
NaN-aware handle (`NanHeap.ZZ`). Each handle is a datatype with these
parts:
- the node pool: `seq<Node>`, where each node records its side, its heap
  index and its value;
- the two heaps: sequences of slot numbers;
- the FIFO list: the sequence `order` of slots, oldest first;
- for `ZZ`, the NaN lists: sequences of slots, oldest first.

The pointer form of a NaN list (`first_nan_*`, `last_nan_*`, `prev_nan`,
`next_nan`) is modelled in `NanList`. There, `Threads` relates the
pointers to the sequence. Each single-list operation (append, unlink,
pop the first node) is proved to keep that relation. The two lists share
the `next_nan`/`prev_nan` fields, so each step that touches both lists is
proved to keep both threaded, with `BothThreaded`. These steps are moving
a NaN between the heaps and evicting a NaN while a new one arrives.
`NanHeap` itself carries the lists as sequences; the lemmas of `NanList`
are what ties those sequences to the pointers.

The pointer form of the FIFO list (`next`, `first`, `last`) is modelled
in `Fifo`. There, `Circular` relates the pointers to `order`: every
insert and update keeps the ring and moves `order` as the heap modules
do. A window of one is the exception for the code as written (see
Findings).

The functional specification of the moving median is:
- `Median.IsMedian` takes the median of the non-NaN values of the window;
- `DoubleHeap.MovingMedianAt` says the result is NaN (`None`) while fewer
  than `min_count` non-NaN values are in the window, and the median
  otherwise.

`DoubleHeap.MoveMedian` and `NanDriver.MoveMedianNan` feed a whole slice
through a handle. They call `insert_init` until the window is complete,
then `update`/`update_checknan`, and after every value `get_median`. The
loop that does this in bottleneck belongs to its moving-window template,
which is not part of this model. The two methods show the usage that the
handle's API is built for.

Modules, one per file:
- `Wrappers`: Option and Result.
- `Counting`: counting, permutations and order statistics.
- `Heap8`: index arithmetic, child selection and sifting of one heap.
- `TwoHeaps`: the two heaps together, with `update_helper` and
  `swap_heap_heads`.
- `Median`: the median and the proof that the heads give it.
- `DoubleHeap`: `mm_*`.
- `Fifo`: the FIFO insertion list as pointers.
- `NanList`: the linked NaN lists.
- `NanHeap`: `zz_*`.
- `NanDriver`: the NaN-aware whole-slice loop.
- `Select`: argpartsort and partsort.
- `Rank`: rankdata and nanrankdata.
- `Push`: push.
- `Args`: the parsers and `nonreducer_axis`.

## Model

| member | source | states |
|---|---|---|
| Heap8.ParentOf | bottleneck/src/auto_pyx/csrc/move_median.c:37-44 | An index i ≥ 1 has parent p exactly when i is one of the 8 indices FC_IDX(p) .. FC_IDX(p)+7, and every parent index is smaller than its child's. |
| Heap8.FirstLeafTest | bottleneck/src/auto_pyx/csrc/move_median.c:252-266 | In a heap of n nodes, an index lies below the recomputed first leaf, ceil((n-1)/8), exactly when its first child exists. This justifies the "idx < first_leaf" test before sifting away from the root. |
| Heap8.ScanChildren | bottleneck/src/auto_pyx/csrc/move_median.c:427-450 | The child scan returns the starting index or one of the scanned children. No scanned child is strictly better than the result, and neither is the start. |
| Heap8.BestChild | bottleneck/src/auto_pyx/csrc/move_median.c:427-480 | get_largest_child / get_smallest_child return idx itself or a child of idx. Neither idx nor any existing child holds a strictly larger value (small heap) or a strictly smaller one (large heap). |
| Heap8.SwapNodes | bottleneck/src/auto_pyx/csrc/move_median.c:486-491 | Swapping two heap entries keeps the heap's multiset of slots and the pool size. |
| Heap8.SwapNodesLinked | bottleneck/src/auto_pyx/csrc/move_median.c:1395-1400 | After a node swap every node's idx again points back to its own heap position, the heap's values are the old values with the two positions exchanged, and the other heap's nodes are untouched. |
| Heap8.RootIsBest | bottleneck/src/auto_pyx/csrc/move_median.c:119-122 | In an ordered heap no entry is strictly better than the root. For the small heap the root is the maximum; for the large heap it is the minimum. |
| Heap8.SiftUp | bottleneck/src/auto_pyx/csrc/move_median.c:497-512 | Moving a node towards the root turns a heap that is ordered except at that node into an ordered heap. The links stay consistent, the set of slots is the same, the other heap is untouched, and the node ends at a smaller index. |
| Heap8.SiftDown | bottleneck/src/auto_pyx/csrc/move_median.c:518-553 | Moving a node towards the leaves turns a heap that is ordered except below that node into an ordered heap, with the same frame and slot facts. The node ends at an index not smaller than where it started. |
| Heap8.AppendWorst | bottleneck/src/auto_pyx/csrc/move_median.c:1000-1023 | Appending -inf to a max-heap, or +inf to a min-heap, keeps it ordered. This is why a NaN placed at the end of a heap needs no sifting of its own. |
| TwoHeaps.SideOkIsHeapsOk | bottleneck/src/auto_pyx/csrc/move_median.c:121-122 | The heap invariant seen from either side is the same: both heaps linked and ordered, and every small value ≤ every large value. |
| TwoHeaps.SwapHeads | bottleneck/src/auto_pyx/csrc/move_median.c:579-592 | Exchanging the two roots and sifting each new root away from the root restores both heaps. The sizes are kept, each heap trades its root slot for the other's, no value changes, and only the two moved nodes change side. |
| TwoHeaps.Helper | bottleneck/src/auto_pyx/csrc/move_median.c:294-386 | Giving node q a new value and repairing the heaps restores the whole heap invariant (both orders and small ≤ large). The sizes and the slot set are kept, only q's value changes, and either each heap keeps its slots or q changes heap in exchange for the other heap's root. |
| TwoHeaps.HelperSide | bottleneck/src/auto_pyx/csrc/move_median.c:311-348 | One branch of the helper (node in the small heap, or mirrored for the large heap) ends in the settled state that the helper's contract needs. |
| Median.MedianUnique | bottleneck/src/auto_pyx/csrc/move_median.c:395-417 | A window has at most one median. So every median the model proves equals the documented one. |
| Median.ReadIsMedian | bottleneck/src/auto_pyx/csrc/move_median.c:405-416 | Take two heaps whose number counts differ by at most one, where the small head is the (ds-1)-th and the large head the ds-th smallest number of the window. Then the get_median rule (odd: head of the bigger side; even: mean of the heads) yields the median. |
| Median.SmallHeadKth | bottleneck/src/auto_pyx/csrc/move_median.c:121-122 | With heaps in order and separated, a numeric small-heap root is the (n_s - 1)-th smallest number of the window, where n_s counts only the numbers. |
| Median.LargeHeadKth | bottleneck/src/auto_pyx/csrc/move_median.c:121-122 | With heaps in order and separated, a numeric large-heap root is the n_s-th smallest number of the window. |
| Median.HeadsAreMedian | bottleneck/src/auto_pyx/csrc/move_median.c:1309-1325 | If NaNs sit only as -inf in the small heap and +inf in the large heap, and the non-NaN counts are balanced within one, then the heads read by zz_get_median's rule are the median of the non-NaN window values. |
| DoubleHeap.SmallCapacity | bottleneck/src/auto_pyx/csrc/move_median.c:155-158 | max_s_heap_size = window/2 + window%2 is the ceiling of half the window: window ≤ 2c ≤ window+1. The large heap's window - c slots are never more than c, and are exactly window%2 fewer. |
| DoubleHeap.WithinCapacity | bottleneck/src/auto_pyx/csrc/move_median.c:155-163 | Neither heap outgrows its part of the node array (n_s ≤ max_s_heap_size, n_l ≤ window - max_s_heap_size), and together they hold every inserted node. |
| DoubleHeap.New | bottleneck/src/auto_pyx/csrc/move_median.c:131-164 | A new handle is consistent, empty and not complete, and has the given window and min_count. |
| DoubleHeap.Reset | bottleneck/src/auto_pyx/csrc/move_median.c:166-174 | Reset empties the window, clears the completion flag and keeps window and min_count. |
| DoubleHeap.InsertInit | bottleneck/src/auto_pyx/csrc/move_median.c:202-274 | During warm-up the value joins the window at the newest end, and the invariant is kept: 0 ≤ n_s - n_l ≤ 1, n_s ≤ max_s_heap_size, heaps in order. The completion flag turns on exactly when the window becomes full. |
| DoubleHeap.Update | bottleneck/src/auto_pyx/csrc/move_median.c:276-287 | Steady-state update is FIFO: the window loses its oldest value and gains x as newest. The oldest slot moves to the end of the list, n_s and n_l are unchanged, and the invariant holds. |
| DoubleHeap.GetMedian | bottleneck/src/auto_pyx/csrc/move_median.c:395-417 | The result is NaN exactly when fewer than min_count values are in the window. Otherwise it is the median of the window. |
| DoubleHeap.Step | bottleneck/src/auto_pyx/csrc/move_median.c:202-417 | One insert_init or update followed by get_median. The handle's window becomes the last `window` values seen, and the value returned is their moving median under the min_count rule. |
| DoubleHeap.MoveMedian | bottleneck/src/auto_pyx/csrc/move_median.c:89-98 | Driving a slice through the handle API gives one output per input. Output i is the median of the last `window` inputs up to i, or NaN while fewer than min_count of them exist. |
| Fifo.LHeapHeadInArray | bottleneck/src/auto_pyx/csrc/move_median.c:155-158 | `l_heap[0]` is an entry of the `window`-entry pointer array exactly when the window is at least two; for a window of one it reads past the array. |
| Fifo.InsertFirstAsWritten | bottleneck/src/auto_pyx/csrc/move_median.c:222-234 | The first insert makes slot 0 the whole list and stores `l_heap[0]` as its `next`: a word outside the pointer array for a window of one, an entry of it otherwise. |
| Fifo.Update | bottleneck/src/auto_pyx/csrc/move_median.c:276-287 | The relinking is defined exactly when `first` and `last` are node addresses; the old first node becomes `last`. |
| Fifo.UpdateRotates | bottleneck/src/auto_pyx/csrc/move_median.c:276-287 | On a ring, the relinking is defined and rotates the list exactly as `order` is rotated by `DoubleHeap.Update`. |
| Fifo.InsertLaterAppends | bottleneck/src/auto_pyx/csrc/move_median.c:238-241 | On a ring, an insert into a free slot pushes the node in front and the following update moves it to the back: the ring becomes `order + [q]`. |
| Fifo.SecondInsertRepairs | bottleneck/src/auto_pyx/csrc/move_median.c:222-241 | For a window of two or more, whatever the first insert stored in the first node's `next`, the second insert leaves a ring over slots 0 and 1. |
| Fifo.WindowOneFollowsJunk | bottleneck/src/auto_pyx/csrc/move_median.c:228 | For a window of one, the first update makes `first` the word read past the pointer array, and the second update has no node to follow. |
| Fifo.InsertFirstLinked | bottleneck/src/auto_pyx/csrc/move_median.c:228 | The corrected first insert, with the node as its own successor, leaves a one-node ring. |
| Fifo.WindowOneLinked | bottleneck/src/auto_pyx/csrc/move_median.c:276-287 | With the corrected first insert, every update of a window of one is defined and rotates the single node onto itself, as the heap modules' `order` does. |
| NanHeap.Sizes | bottleneck/src/auto_pyx/csrc/move_median.c:1537-1538 | The heaps split the window, n_s ≥ n_s_nan and n_l ≥ n_l_nan, the small heap is empty only when the window is, and a complete window fills both heaps. |
| NanHeap.Consistent | bottleneck/src/auto_pyx/csrc/move_median.c:1534-1610 | The handle invariant implies what check_asserts asserts: non-negative non-NaN counts that differ by at most one, and n_s ≤ max_s_heap_size. Every listed small NaN is a -inf node of the small heap, and every listed large NaN a +inf node of the large heap. |
| NanHeap.New | bottleneck/src/auto_pyx/csrc/move_median.c:730-763 | A new NaN-aware handle is consistent, empty and not complete, and has the given window and min_count. |
| NanHeap.Reset | bottleneck/src/auto_pyx/csrc/move_median.c:765-779 | Reset empties the window and both NaN lists, clears the flag and keeps window and min_count. |
| NanHeap.GetMedian | bottleneck/src/auto_pyx/csrc/move_median.c:1300-1326 | The result is NaN exactly when the window holds fewer than min_count non-NaN values. Otherwise it is the median of the non-NaN values. |
| NanHeap.InsertInit | bottleneck/src/auto_pyx/csrc/move_median.c:807-902 | During warm-up a value or NaN joins the window at the newest end, and the full invariant is kept (including NaN bookkeeping and balance). The completion flag turns on exactly when the window becomes full. |
| NanHeap.InsertNan | bottleneck/src/auto_pyx/csrc/move_median.c:980-1027 | A warm-up NaN is appended as +inf to the large heap or -inf to the small heap by the code's rule, and the window gains a NaN. The heaps, the lists and the balance stay consistent. |
| NanHeap.InsertNumber | bottleneck/src/auto_pyx/csrc/move_median.c:867-896 | A warm-up number is placed by the non-NaN-count rule and sifted in. The window gains it, and the heaps, the lists and the balance stay consistent. |
| NanHeap.NanInsertBalance | bottleneck/src/auto_pyx/csrc/move_median.c:1000-1024 | zz_insert_nan's placement (large heap iff the small heap is full or has more NaNs, and the large heap is not full) never overflows a heap and keeps the warm-up balance. |
| NanHeap.NumberInsertBalance | bottleneck/src/auto_pyx/csrc/move_median.c:870-894 | The placement of a number (large heap iff the small heap is full or has more numbers) never overflows the large heap and keeps the warm-up balance. |
| NanHeap.UpdateNonan | bottleneck/src/auto_pyx/csrc/move_median.c:904-915 | The oldest node moves to the end of the list, takes the new value and the heaps are repaired. Sizes and slot set are kept, and only that node's value changes. |
| NanHeap.Unlink | bottleneck/src/auto_pyx/csrc/move_median.c:1127-1172 | Removing the departing node from its NaN list, if it is on one, leaves lists that book exactly the remaining infinities. Each list shrinks by one exactly when the node was on it. |
| NanHeap.SkipEvict | bottleneck/src/auto_pyx/csrc/move_median.c:1177-1213 | A NaN sentinel being written is appended to the list of its sign, and the update then keeps heaps and bookkeeping consistent. The list of that sign grows by one and the other list is unchanged. |
| NanHeap.UpdateWithNan | bottleneck/src/auto_pyx/csrc/move_median.c:1123-1175 | The window loses its oldest value and gains the new one (a NaN when an infinity is written), and the heaps and NaN lists stay consistent. Each NaN count drops by one if the departing node was a NaN of that heap and rises by one if the new value is its sentinel. |
| NanHeap.MoveNanHelper | bottleneck/src/auto_pyx/csrc/move_median.c:1217-1228 | Negating a moved NaN's infinity and running the helper puts the node in the other heap. The window's values (NaN stays NaN), the sizes and the lists are unchanged. |
| NanHeap.MoveNanFromSToL | bottleneck/src/auto_pyx/csrc/move_median.c:1230-1260 | The oldest small-heap NaN becomes the newest large-heap NaN. n_s_nan drops by one and n_l_nan rises by one, while the window, the FIFO list and the heap sizes are unchanged. |
| NanHeap.MoveNanFromLToS | bottleneck/src/auto_pyx/csrc/move_median.c:1262-1292 | The oldest large-heap NaN becomes the newest small-heap NaN, with the mirrored counts and the same frame. |
| NanHeap.Rebalance | bottleneck/src/auto_pyx/csrc/move_median.c:960-970 | If the non-NaN counts differ by 2 after an update, moving one NaN across brings them within one. The window is unchanged and the full invariant holds. |
| NanHeap.UpdateCheckNan | bottleneck/src/auto_pyx/csrc/move_median.c:917-974 | Steady-state update with NaN: the window loses its oldest value and gains x (NaN or a number) as newest. The full invariant holds afterwards, including non-NaN counts that differ by at most one. |
| NanHeap.Step | bottleneck/src/auto_pyx/csrc/move_median.c:807-974 | One insert_init or update_checknan followed by get_median. The window becomes the last `window` inputs and the output is their NaN-aware moving median. |
| NanList.ThreadsChecked | bottleneck/src/auto_pyx/csrc/move_median.c:1553-1599 | A well-threaded NaN list satisfies check_asserts: first is null iff last is null iff the list is empty, the ends have null outward pointers, and every member's next points back to it and differs from its prev. |
| NanList.AppendThreads | bottleneck/src/auto_pyx/csrc/move_median.c:1181-1208 | Appending a node not on the list yields a correctly threaded list with the node as last, and only pointers of list members change. |
| NanList.UnlinkThreads | bottleneck/src/auto_pyx/csrc/move_median.c:1127-1171 | Unlinking any member yields the list without it, correctly threaded, and the code's assert that a non-first member has a predecessor holds. |
| NanList.UnlinkFirst | bottleneck/src/auto_pyx/csrc/move_median.c:1132-1139 | Unlinking the first member leaves the rest of the list, correctly threaded. |
| NanList.UnlinkInner | bottleneck/src/auto_pyx/csrc/move_median.c:1140-1149 | Unlinking a member that is not first splices its predecessor to its successor. The result is the list without it, correctly threaded. |
| NanList.PopFirstThreads | bottleneck/src/auto_pyx/csrc/move_median.c:1235-1244 | Taking the first node off a list, as the move_nan functions do, leaves the rest of the list correctly threaded. The node taken is the list's first. |
| NanList.MoveThreads | bottleneck/src/auto_pyx/csrc/move_median.c:1230-1292 | Moving the first NaN of one list to the end of the other, through the shared pointer fields, leaves both lists threaded: the source list loses its first node and the target list gains it as last. |
| NanList.EvictAcrossThreads | bottleneck/src/auto_pyx/csrc/move_median.c:1123-1213 | A departing NaN unlinked from one list and appended to the other leaves both lists threaded, and the code's predecessor assert holds. |
| NanList.EvictWithinThreads | bottleneck/src/auto_pyx/csrc/move_median.c:1123-1213 | A departing NaN unlinked and appended again to its own list moves to that list's end; both lists stay threaded. |
| NanList.EvictOnlyThreads | bottleneck/src/auto_pyx/csrc/move_median.c:1123-1175 | A departing NaN replaced by a number is only unlinked; both lists stay threaded. |
| NanList.AddOnlyThreads | bottleneck/src/auto_pyx/csrc/move_median.c:1177-1213 | A new NaN in a node on neither list is appended to one list; both lists stay threaded. |
| NanDriver.MoveMedianNan | bottleneck/src/auto_pyx/csrc/move_median.c:681-698 | Driving a slice with NaNs through the zz handle API gives one output per input. Output i is the median of the non-NaN values among the last `window` inputs up to i, or NaN while fewer than min_count of them are numbers. |
| Select.SwapPermuted | bottleneck/src/nonreduce_axis_template.c:97-104 | Swapping B and Y at the same two positions keeps B[i] == a[Y[i]] for every i, and keeps Y a permutation of 0..L-1. |
| Select.MedianOfThree | bottleneck/src/nonreduce_axis_template.c:110-150 | The value ARGPARTITION moves to position k is one of B[l], B[k], B[r] and is their median: at least two of the three are ≤ it and at least two are ≥ it. |
| Select.WirthPass | bottleneck/src/nonreduce_axis_template.c:88-107 | One ARGWIRTH pass keeps the B/Y correspondence and the fences outside [l, r]. It ends with j < i, everything in [l, i) ≤ the pivot and everything in (j, r] ≥ it. |
| Select.Partition | bottleneck/src/nonreduce_axis_template.c:109-153 | ARGPARTITION ends with B a rearrangement of a through Y, and B partitioned at k: every earlier entry ≤ B[k] ≤ every later entry. |
| Select.PartitionedIsKth | bottleneck/src/nonreduce_axis_template.c:828-835 | A buffer partitioned at k that rearranges a holds at k the k-th smallest value of a (0-based), which is the docstring's promise. |
| Select.ArgPartsort | bottleneck/src/nonreduce_axis_template.c:167-195 | An empty slice returns the empty index array without checking n. Otherwise n outside 1..L is the ValueError, and any other n yields a permutation of 0..L-1 whose (n-1)-th entry indexes the n-th smallest value, with no larger value before it and no smaller one after it. |
| Select.PartSort | bottleneck/src/nonreduce_axis_template.c:49-78 | An empty slice returns the copy without checking n. Otherwise n outside 1..L is the ValueError, and any other n yields a rearrangement of the slice with the n-th smallest value at n-1 and the slice partitioned there. |
| Rank.RunRank | bottleneck/src/nonreduce_axis_template.c:228-247 | For a run [g, h) of equal values in the sorted order, the rank the loop writes (sumranks/dupcount + 1) equals the documented average rank of each member. |
| Rank.RankData | bottleneck/src/nonreduce_axis_template.c:204-260 | Given the sorting permutation, every output entry is 1 plus the mean of the 0-based sorted positions of its value's ties. |
| Rank.RankedThroughPermutation | bottleneck/src/nonreduce_axis_template.c:236-250 | Writing each sorted position's rank through z (y[z[m]]) gives every original entry its own average rank. |
| Rank.RankBounds | bottleneck/src/nonreduce_axis_template.c:893-895 | Ranks begin at 1 and never exceed the slice length. |
| Rank.RankOrder | bottleneck/src/nonreduce_axis_template.c:893-895 | Equal values share a rank and strictly smaller values get strictly smaller ranks, in both directions. |
| Rank.RankExample | bottleneck/src/nonreduce_axis_template.c:916-917 | The documented example: [0, 2, 2, 3] ranks as [1, 2.5, 2.5, 4]. |
| Rank.NanRunRank | bottleneck/src/nonreduce_axis_template.c:298-305 | For a run of equal numbers in the NaN-last sorted order, the rank written is the average rank among the non-NaN entries. |
| Rank.NanRankData | bottleneck/src/nonreduce_axis_template.c:268-336 | Given the NaN-last sorting permutation, NaN entries come out NaN and numbers get their average rank among the non-NaN entries. |
| Rank.NanRankedThroughPermutation | bottleneck/src/nonreduce_axis_template.c:298-327 | Writing each sorted position's NaN-aware rank through z gives every original entry its own NaN-aware rank. |
| Rank.NanRankBounds | bottleneck/src/nonreduce_axis_template.c:935-939 | The output is NaN exactly for NaN inputs. A number's rank lies between 1 and the number of non-NaN entries. |
| Rank.NanRankOrder | bottleneck/src/nonreduce_axis_template.c:935-939 | Among numbers, equal values share a rank and strictly smaller values get strictly smaller ranks, in both directions. |
| Rank.NanRankExample | bottleneck/src/nonreduce_axis_template.c:960-961 | The documented example: [nan, 2, 2, 3] ranks as [nan, 1.5, 1.5, 3]. |
| Push.LastValid | bottleneck/src/nonreduce_axis_template.c:368-375 | The tracked index is the last non-NaN position at or before i. When there is none, every entry up to i is NaN. |
| Push.PushSlice | bottleneck/src/nonreduce_axis_template.c:355-386 | The single forward pass with ai_last and index computes the documented fill rule `Pushed` on every entry. Under that rule a number stays, and a NaN takes the last number if it is at most n positions back (any distance when n < 0) and otherwise stays NaN. |
| Push.PushKeepsNumbers | bottleneck/src/nonreduce_axis_template.c:372-375 | Non-NaN entries are unchanged. A filled NaN holds the most recent earlier number, which is within distance n. |
| Push.PushLeavesNaN | bottleneck/src/nonreduce_axis_template.c:376-380 | A NaN stays NaN exactly when no number lies within distance n before it. This covers leading NaNs. |
| Push.PushIntsAgrees | bottleneck/src/nonreduce_axis_template.c:390-395 | Integer push returns an unchanged copy, which is what the float rule does on NaN-free data. |
| Push.PushMonotone | bottleneck/src/nonreduce_axis_template.c:986-990 | A larger n (or no limit) fills everything a smaller n fills, with the same values. |
| Push.PushIdempotent | bottleneck/src/nonreduce_axis_template.c:365-381 | Unlimited push is idempotent. |
| Push.PushLimitedNotIdempotent | bottleneck/src/nonreduce_axis_template.c:377-379 | Limited push is not idempotent: with n = 1, [1, nan, nan] becomes [1, 1, nan] and then [1, 1, 1]. |
| Push.PushShort | bottleneck/src/nonreduce_axis_template.c:362-364 | A slice of length at most one comes back unchanged. |
| Push.PushExample | bottleneck/src/nonreduce_axis_template.c:1006-1012 | The documented examples for [5, nan, nan, 6, nan] with no limit, n = 1 and n = 2. |
| Args.AsCInt | bottleneck/src/nonreduce_axis_template.c:709-713 | Only an integer object within C int range converts, and it converts to itself. |
| Args.CParse | bottleneck/src/nonreduce_axis_template.c:417-488 | Without keywords a call succeeds iff it has between `required` and all parameters positionally. With keywords, a call that already fills every parameter is the wrong-number-of-arguments error. The "too many arguments" branch is never taken. |
| Args.Parse | bottleneck/src/nonreduce_axis_template.c:489-551 | Every successful parse binds `arr`. Without keywords, success is exactly the function's positional arity. |
| Args.ParsedNames | bottleneck/src/nonreduce_axis_template.c:552-623 | A successful parse binds only the function's own parameter names. |
| Args.ScanSucceeds | bottleneck/src/nonreduce_axis_template.c:436-461 | The keyword scan fails exactly when a required parameter not given positionally is missing from the keywords. |
| Args.ScanBinds | bottleneck/src/nonreduce_axis_template.c:436-461 | A successful scan binds exactly the parameters after the positional ones that appear as keywords, each to its keyword's object. nkwds_found counts them. |
| Args.ScanCountsKeywords | bottleneck/src/nonreduce_axis_template.c:462-465 | nkwds_found == nkwds holds exactly when every keyword names a parameter not already given positionally. Then the bound names are exactly the keywords. |
| Args.ParseMatchesBind | bottleneck/src/nonreduce_axis_template.c:417-488 | The C parser agrees with Python-style binding in both directions. It succeeds exactly when positionals fit, keywords name only remaining parameters and every required one is given, and then both bind the same objects. |
| Args.PositionalArity | bottleneck/src/nonreduce_axis_template.c:471-482 | Positional-only calls succeed with 2–3 arguments for partsort, 1–2 for rankdata and 1–3 for push. |
| Args.NormalizeAxis | bottleneck/src/nonreduce_axis_template.c:681-726 | A successful normalisation yields an axis inside [0, ndim), or a flatten-and-use-axis-0 choice that push never makes. |
| Args.IntegerAxis | bottleneck/src/nonreduce_axis_template.c:708-726 | An integer axis is accepted iff -ndim ≤ axis < ndim. The accepted axis is the given one with ndim added when negative. |
| Args.DefaultAxis | bottleneck/src/nonreduce_axis_template.c:682-707 | A missing axis is ndim-1 for partsort and push (an error when ndim is 0), and means "flatten, axis 0" for rankdata, like an explicit None. An explicit None is an error exactly for push. |
| Args.PushHasDimension | bottleneck/src/nonreduce_axis_template.c:362 | Whenever push's axis is accepted the array has at least one dimension, so the kernel's NDIM == 0 shortcut is never the one taken. |
| Args.NormalizeN | bottleneck/src/nonreduce_axis_template.c:728-742 | A missing n becomes -1. A given n must convert to a C int, and for push must be non-negative, and is then used as given. |
| Args.PushUnlimitedIffMissing | bottleneck/src/nonreduce_axis_template.c:728-742 | For push, the kernel sees a negative n (unlimited) exactly when n was not given. |
| Args.NonreducerAxis | bottleneck/src/nonreduce_axis_template.c:625-751 | A call reaches a kernel exactly when parsing, axis normalisation and n normalisation all succeed. The axis it gets is in range unless the array is flattened, and rankdata always gets n = -1. |

## Left out

- Python and NumPy C-API plumbing is not modelled: conversion of `arr` to an array, reference counting, `intern_strings`, module init, docstrings as data, the `slow()` fallback for byte-swapped or unsupported dtypes, and dtype dispatch. Python objects are reduced to "integer", "None" or "other".
- Multi-dimensional iteration (`WHILE`, `NEXT*`, `AX`, `YX`, `ZX`, `LENGTH`) comes from an iterator header that is not part of this model. Every kernel works on one 1-D slice.
- The `PARTITION` macro used by `partsort` is not part of this model. `Select.PartSort` runs the visible `ARGPARTITION` logic and states the documented contract.
- NumPy's argsort is not modelled. `rankdata` and `nanrankdata` take the sorting permutation as an input, required to sort ascending, with NaNs last for `nanrankdata`.
- The fill loop of `rankdata` and `nanrankdata` for a zero-length slice is not modelled, because such an array has no entries to fill.
- Floating point is not modelled. Values are integers and NaN is `None`. Means and ranks are exact reals, so rounding in `sumranks / dupcount` and in the mean of two heads is not modelled.
- `ceil((n - 1) / (double)NUM_CHILDREN)` is the integer `(n - 1 + 7) / 8`.
- The 32-bit and `size_t` widths are not modelled, except the C int range that `axis` and `n` must fit.
- `DoubleHeap.MoveMedian` and `NanDriver.MoveMedianNan` model the usage the handle API implies, because the driver loop over a slice is not part of this model.
- Memory layout and lifetime are not modelled: `malloc`/`free` in `mm_new`/`zz_new`, `mm_free`/`zz_free`, and the buffer of `argpartsort`. Node slots are a sequence addressed by index.
- Debug output (`mm_dump`, `zz_dump`, `mm_check_asserts`) is not modelled. What `check_asserts` checks is stated as `NanHeap.Consistent` and `NanList.ThreadsChecked`.
- GIL release (`BN_BEGIN/END_ALLOW_THREADS`) is not modelled, because it has no effect in a sequential model.
- `DoubleHeap.Update`, `DoubleHeap.Step`, `DoubleHeap.MoveMedian`, `NanHeap.UpdateCheckNan`, `NanHeap.Step`, `NanDriver.MoveMedianNan`: for a window of one the C code reads `l_heap[0]` past `nodes[]` and its second update follows a pointer that is not a node (`Fifo.WindowOneFollowsJunk`). These members define the result as the median, which is the corrected behaviour `Fifo.WindowOneLinked` (see Findings).
- User infinities in the NaN-aware heap are not modelled. The `zz_*` code takes any infinite node value as a NaN sentinel on eviction (`isinf`), so a +inf or -inf input would be counted as a NaN. Values here are integers and cannot express this.
- `NanHeap.UpdateWithNan`, `NanHeap.SkipEvict`: they require that an infinity landing in the opposite heap finds a number at that heap's root to trade with. `zz_update_checknan`'s choice of sign guarantees this, and it is the only caller with an infinity; the requirement is not derived for arbitrary callers.
- `min_count` ≥ 1 and `window` ≥ 1 are required of handles. With `min_count` 0, `get_median` on an empty window would read unset heap heads. A window of one is accepted with the corrected FIFO behaviour described under Findings.
- NaN inputs to `argpartsort` and `partsort` are not modelled, because the docstring disclaims them. Values are integers.

## Findings

| source | as written | input that shows it | evidently intended | confidence | as-written member | corrected member |
|---|---|---|---|---|---|---|
| bottleneck/src/auto_pyx/csrc/move_median.c:228 (and 839 for `zz_*`) | The first node's `next` is set to `l_heap[0]`, that is `nodes[max_s_heap_size]`. For `window == 1`, `max_s_heap_size` is 1, so this reads past the one-entry pointer array (155-158, 753-756). The first `mm_update`/`zz_update_nonan` makes that word `first` (282, 910), and the second follows it. | `window = 1` and three values, e.g. `[1, 2, 3]`: the third value's update dereferences a word that is not a node address. | A one-node list rotates onto itself: the first node is its own successor, and each output is that value (the median of a window of one). | not executed; the caller that drives the handle is not part of this model, so whether a window of one reaches this code is not known | Fifo.WindowOneFollowsJunk | Fifo.WindowOneLinked |
