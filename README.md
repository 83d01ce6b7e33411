# Leaderboard ranking, modelled in Dafny

This project models the ranking engine of a small C++ leaderboard. The engine ranks
`Player` records, each a name and a level, by level only. It selects the top
fraction of a population in three ways:

- `Offline::heapRank` heapifies the caller's vector as a max-heap, pops the maximum
  `N/10` times and returns the popped records sorted ascending.
- `Offline::quickSelectRank` partitions the caller's vector with `nth_element` at
  `k = N - N/10` and returns `players[k..]` sorted ascending.
- `Online::rankIncoming` drains a `PlayerStream`. It keeps the best
  `reporting_interval` records in a buffer: records are appended until the buffer
  is full, the buffer then becomes a min-heap, and after that a newcomer replaces
  the root through `replaceMin` only when its level is strictly greater. At every
  multiple of the interval, and at the final count, it records a cutoff level.

`VectorPlayerStream` is the stream over a fixed vector that feeds `rankIncoming`.

The model is imperative where the source is:

- the caller's vector is an `array<Player>` that the offline rankers rearrange in
  place;
- the online buffer is an array that `ReplaceMin` sifts in place;
- the stream is a class whose cursor `NextPlayer` advances.

The STL algorithms the source relies on are in module `Stl`: `make_heap`,
`pop_heap`, `nth_element`, `sort` and `swap`. Each is modelled by the guarantee the
library documents and has a verified body. Everything is proved against reference
definitions in module `Players`:

- `Sorted`: ascending by level;
- `IsTopK(t, s, k)`: `t` is drawn from `s`, has `min(|s|, k)` records, and nothing
  left out of `s` is above anything in `t`;
- `IsCutoffOf(v, s, k)`: at least `k` records of `s` reach level `v`, and fewer
  than `k` exceed it;
- `LeastLevel`: the least level of a non-empty sequence.

Files:

- `players.dfy`: records, results and reference definitions;
- `stl.dfy`: heap predicates and the library algorithms;
- `streams.dfy`: the stream;
- `offline.dfy`: the two offline rankers;
- `online.dfy`: `replaceMin` and `rankIncoming`.

`rankIncoming`'s final cutoff for a stream shorter than the interval is the subject
of the one finding below. The code reads the front of a buffer that was never
heapified, which is the first record read. The function's own documentation (Leaderboard.cpp:171-172 and 182-184) calls for
the minimum level instead.
`Online.RankIncomingAsWritten` and `Online.FinishAsWritten` model the code as written.
`Online.RankIncoming` and `Online.Finish` record the least level.

## Model

| member | source | states |
|---|---|---|
| Streams.VectorPlayerStream.constructor | PlayerStream.cpp:11 | the stream holds the given records with the cursor at 0: nothing consumed, all of them unread |
| Streams.VectorPlayerStream.Remaining | PlayerStream.cpp:35-37 | the count of unread records, which is 0 exactly when every stored record has been consumed |
| Streams.VectorPlayerStream.NextPlayer | PlayerStream.cpp:22-28 | with records left: returns the record at the cursor, advances the cursor by one, extends the consumed prefix by that record and lowers the remaining count by one; otherwise: fails with `NoMorePlayers` and leaves the cursor alone |
| Streams.ReadAll | PlayerStream.cpp:13-28 | reading a fresh stream until nothing remains hands out exactly the stored records in order, and one more read then fails |
| Stl.RootPrecedesAll | Leaderboard.cpp:39 | in a heap, the root precedes every element in the heap's order: the maximum of a max-heap, the minimum of a min-heap |
| Stl.MinHeapRoot | Leaderboard.cpp:218 | the front of a min-heap has the least level in it |
| Stl.RootReplaced | Leaderboard.cpp:133 | overwriting the root of a heap leaves the heap order intact everywhere below the root |
| Stl.SiftStep | Leaderboard.cpp:157-164 | swapping the hole with its strictly better child moves the single heap violation one level down |
| Stl.SiftDone | Leaderboard.cpp:157-160 | once the hole precedes each of its children, the whole range is a heap |
| Stl.SwapPermutes | Leaderboard.cpp:163 | swapping two positions permutes the sequence |
| Stl.Swap | Leaderboard.cpp:163 | `std::swap` of two slots of a segment: the segment is its old contents with the two slots exchanged, the multiset is unchanged, and nothing outside the segment changes |
| Stl.SiftDown | Leaderboard.cpp:39 | sifting the element at `lo` down makes everything from `lo` on heap-ordered, permutes `a[..n]` and leaves `a[n..]` alone |
| Stl.MakeHeap | Leaderboard.cpp:39 | `std::make_heap`: the array becomes a heap of the requested order and a permutation of its old contents |
| Stl.RootSwapped | Leaderboard.cpp:49 | after the root of a heap is swapped with its last slot, everything below the new root in the shortened range is still heap-ordered |
| Stl.PopHeap | Leaderboard.cpp:49 | `std::pop_heap`: the old root lands in slot `n-1`, `a[..n-1]` is again a heap, `a[..n]` is permuted, and nothing past `n` changes |
| Stl.PopGlue | Leaderboard.cpp:49 | a swap of first and last slots followed by a rearrangement of all but the last slot permutes the whole range and leaves the old first record last |
| Stl.MaxIndex | Leaderboard.cpp:87 | an index in `a[..hi]` of a record with the greatest level there |
| Stl.SelectStep | Leaderboard.cpp:87 | moving the highest record of `s[..i]` to slot `i-1` extends the ascending split-off tail by one slot |
| Stl.NthElement | Leaderboard.cpp:87 | `std::nth_element` at `k`: a permutation in which nothing before `k` is above anything from `k` on, with slot `k` holding the least level of `a[k..]` |
| Stl.Insert | Leaderboard.cpp:55 | inserting into an ascending sequence keeps it ascending and adds exactly that record |
| Stl.BoundKept | Leaderboard.cpp:55 | a lower bound of a record and of a sequence bounds any arrangement of the two together |
| Stl.SortAscending | Leaderboard.cpp:55 | `std::sort` by level: an ascending permutation of the input |
| Players.LeastLevel | Leaderboard.cpp:182-184 | the least level of a non-empty sequence: no record is below it, and some record has it |
| Players.CountAtLeast | Leaderboard.cpp:170-172 | the number of records reaching a level is at most the number of records |
| Players.CountAppend | Leaderboard.cpp:222-223 | counts add up over a concatenation |
| Players.CountPermutation | Leaderboard.cpp:222-223 | counts do not depend on order |
| Players.CountRemove | Leaderboard.cpp:222-223 | removing one record lowers the count by that record's share |
| Players.CountMonotone | Leaderboard.cpp:222-223 | raising the threshold never raises the count |
| Players.TopKCount | Leaderboard.cpp:170-172 | at every threshold, a top-k selection holds as many qualifying records as the population does, up to its size |
| Players.TopKMinIsCutoff | Leaderboard.cpp:170-172 | the least level of a full top-k selection is the population's cutoff level, whichever tied records were kept |
| Players.CutoffUnique | Leaderboard.cpp:182-184 | a population has only one cutoff level |
| Players.LevelMultiplicity | Leaderboard.cpp:27-28 | how often a level occurs is the difference of two counts |
| Players.TopKLevelsAgree | Leaderboard.cpp:27-28 | any two top-k selections of one population hold the same multiset of levels |
| Players.SplitMultiset | Leaderboard.cpp:90 | cutting a sequence in two splits its multiset |
| Players.TopKOfSplit | Leaderboard.cpp:48-52 | a selection split off from a remainder, with nothing in the remainder above it, is a top selection |
| Players.TopKPermuted | Leaderboard.cpp:55 | reordering a top selection keeps it one |
| Players.TopKOfAll | Leaderboard.cpp:213-217 | a population no larger than `k` is its own top selection in any order |
| Players.TopKReplace | Leaderboard.cpp:218-219 | a newcomer strictly above the least selected record replaces it, and the result is the top k of the grown population |
| Players.TopKSkip | Leaderboard.cpp:218 | a newcomer no higher than the least selected record is discarded, and the selection is still the top k of the grown population |
| Offline.PopStep | Leaderboard.cpp:48-52 | one pop-and-push round keeps the selection and the heap a split of the population, with nothing in the heap above anything selected |
| Offline.HeapRankSelects | Leaderboard.cpp:54-55 | the popped records, sorted, are a top selection of the population and stay above everything left in the vector |
| Offline.HeapRank | Leaderboard.cpp:34-63 | returns `N/10` records sorted ascending that are a top-`N/10` selection, with empty cutoffs; the vector shrinks by `N/10`, its rest is a max-heap below every returned record, and the two together are the original population |
| Offline.SelectedTop | Leaderboard.cpp:84-91 | any reordering of the tail of a split population is a top selection of size `|s| - k` |
| Offline.BoundPermuted | Leaderboard.cpp:55 | reordering the selection keeps it above the remainder |
| Offline.QuickSelectRank | Leaderboard.cpp:78-99 | the vector is permuted and split at `k = N - N/10`; the result is `players[k..]` sorted, a top-`N/10` selection, with empty cutoffs |
| Offline.RankersAgree | Leaderboard.cpp:34-99 | the two offline rankers return the same number of records with the same multiset of levels |
| Online.ReplaceMin | Leaderboard.cpp:127-166 | an empty range is left alone; otherwise `a[first..last]` becomes a min-heap holding the old heap with its root replaced by `target`, and nothing outside the range changes |
| Online.SmallestOfFamily | Leaderboard.cpp:140-155 | the offset of the smallest among a node and its in-range children: the search leaves the node only for a strictly smaller child, and no child is below the chosen one |
| Online.MultiplesCount | Leaderboard.cpp:222-224 | the positive multiples of the interval up to a count number `count / interval` |
| Online.DivStep | Leaderboard.cpp:222 | the quotient by the interval rises by one exactly when the count reaches a multiple |
| Online.DivUnique | Leaderboard.cpp:222 | `a == k * q + r` with `r < k` makes `q` the quotient and `r` the remainder |
| Online.MilestonesCount | Leaderboard.cpp:222-230 | the cutoffs of a drained stream number one per full interval, plus one for the final count when it is not a multiple |
| Online.MilestonesExample | Leaderboard.cpp:190-196 | the documented example: 132 records at an interval of 50 give the milestones 50, 100 and 132 |
| Online.CutoffsSkip | Leaderboard.cpp:222 | an arrival at a count that is not a multiple leaves every recorded cutoff valid |
| Online.CutoffsRecord | Leaderboard.cpp:222-224 | at a multiple, recording the cutoff level of everything read keeps the cutoffs complete and valid |
| Online.FinalCutoffKeys | Leaderboard.cpp:227-230 | recording under the final count unless it is already a key leaves exactly the milestones as keys |
| Online.FinalCutoffs | Leaderboard.cpp:227-230 | with that final record, every recorded level from `k` records on is the cutoff level of its prefix, provided the final value is |
| Online.FillStep | Leaderboard.cpp:213-217 | appending to a buffer that is not full keeps it equal to the arrivals so far |
| Online.Admit | Leaderboard.cpp:213-220 | one arrival keeps the buffer invariant: exactly the arrivals while not full, and a min-heap top-k selection of everything read once full. It also relates the new buffer to the old one. While not full, the arrival goes into the next free slot, and the buffer is rearranged only by the heapify that fills it. Once full, an arrival no higher than the root leaves the buffer unchanged, and one strictly higher replaces exactly the root |
| Online.Arrive | Leaderboard.cpp:210-224 | one pass of the loop after a record is read keeps both the buffer invariant and the cutoff invariant for the records read so far |
| Online.RecordCutoff | Leaderboard.cpp:222-224 | after an arrival, the cutoffs hold one entry per multiple reached, each the cutoff level of its prefix |
| Online.SortBuffer | Leaderboard.cpp:232-233 | the buffer's records sorted ascending are a top selection of everything read |
| Online.FinishAsWritten | Leaderboard.cpp:227-240 | as written: sorted top selection, exactly the milestones as keys, every milestone from the interval on holding the cutoff level of its prefix, and for a short stream the level of the first record read as the final cutoff |
| Online.Finish | Leaderboard.cpp:227-240 | sorted top selection, exactly the milestones as keys, every milestone from the interval on holding the cutoff level of its prefix, and for a short stream the least level read |
| Online.Drain | Leaderboard.cpp:208-225 | the loop reads every remaining record, leaving the buffer invariant and the cutoff invariant over all of them |
| Online.RankIncomingAsWritten | Leaderboard.cpp:199-241 | as written: the same result as `RankIncoming`, except that for a stream shorter than the interval the final cutoff is the first record's level |
| Online.ShortStreamCutoffs | Leaderboard.cpp:228-230 | on the stream `("a", 5), ("b", 3)` with interval 3, the as-written ranker records 5 under the count 2, and the corrected one records 3 |
| Online.RankIncoming | Leaderboard.cpp:199-241 | drains the stream; returns an ascending top-`interval` selection of all records read, cutoffs keyed by exactly the milestones, each milestone `m` from the interval on holding the cutoff level of the first `m` records, and for a stream shorter than the interval the least level read |

## Left out

- The elapsed time in `RankingResult` (Leaderboard.cpp:13) is left out, together with the clock calls that measure it: this model has no time.
- `std::unordered_map` is a Dafny `map`; hashing and iteration order are not modelled.
- The `std::runtime_error` that `nextPlayer` throws is the `Err(NoMorePlayers)` result.
- Only `VectorPlayerStream` is modelled. The abstract `PlayerStream` interface and `Player`'s declaration (its header) are not part of this model. Records compare by level only; the name never decides the order.
- The STL algorithms are modelled by the guarantees the library documents. Their bodies are simple verified algorithms, not the library's: bottom-up heapify, selection by repeated maximum, and insertion sort. So the exact arrangement the library leaves in the vector is not modelled, and neither is which of several equal-level records it keeps.
- Offline.HeapRank: the vector's `pop_back` is modelled as the returned `size`. The popped records stay in the array past that size.
- Online.RankIncoming: the buffer vector, which grows by `push_back` up to the interval, is an array of the interval's capacity plus a size counter.
- Online.RankIncoming: the final `std::sort` sorts a copy of the buffer rather than the buffer in place.
- Online.RankIncoming: requires a positive interval and a non-empty stream. In the source, the first is a modulo by zero and the second reads `front()` of an empty vector.
- Online.RankIncoming, Offline.HeapRank, Offline.QuickSelectRank: the selection is stated up to ties (`IsTopK`). The model does not say which of several equal-level records is kept.
- `size_t` counts are unbounded naturals; overflow is not modelled.
- Online.ReplaceMin: the source may move `target`; the model copies it, since records are values.

## Findings

| source | as written | input that shows it | evidently intended | confidence | as-written member | corrected member |
|---|---|---|---|---|---|---|
| Leaderboard.cpp:228-230 | for a stream shorter than the interval, the final cutoff is `topPlayers.front().level_` of a buffer that was never heapified, which is the first record read | interval 3, stream `("a", 5), ("b", 3)`: the code records `{2: 5}` | the least level among the records read, `{2: 3}`, as the documentation at lines 171-172 and 182-184 promises | high; not executed | Online.RankIncomingAsWritten, Online.FinishAsWritten, Online.ShortStreamCutoffs | Online.RankIncoming, Online.Finish |
