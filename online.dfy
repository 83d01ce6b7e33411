/**
 * The online ranker: records arrive one at a time from a stream, and only a
 * bounded buffer of the best `interval` records seen so far is kept, as a
 * min-heap whose root is the weakest record still on the board.
 */
module Online {
  import opened Players
  import opened Stl
  import opened Streams

  /**
   * `Online::replaceMin`: overwrite the root of the min-heap `a[first..last]`
   * with `target`, then sift it down along the `2i+1` / `2i+2` children,
   * swapping with the smaller child while that child is strictly smaller.
   * An empty range is left alone.
   */
  method ReplaceMin(a: array<Player>, first: nat, last: nat, target: Player)
    requires first <= last <= a.Length
    requires IsHeap(a[first..last], MinHeap)
    modifies a
    ensures first == last ==> a[..] == old(a[..])
    ensures first < last ==> multiset(a[first..last]) == multiset(old(a[first..last])[0 := target])
    ensures IsHeap(a[first..last], MinHeap)
    ensures forall k :: 0 <= k < first || last <= k < a.Length ==> a[k] == old(a[k])
  {
    if first == last {
      return;
    }
    ghost var heap := a[first..last];
    RootReplaced(heap, MinHeap, target);
    a[first] := target;
    assert a[first..last] == heap[0 := target];
    var current := 0;
    var heapSize := last - first;
    while true
      invariant |a[first..last]| == heapSize && 0 <= current < heapSize
      invariant HeapFrom(a[first..last], MinHeap, 0, current) && Bridged(a[first..last], MinHeap, 0, current)
      invariant multiset(a[first..last]) == multiset(heap[0 := target])
      invariant forall k :: 0 <= k < first || last <= k < a.Length ==> a[k] == old(a[k])
      decreases heapSize - current
    {
      var smallest := SmallestOfFamily(a, first, last, current);
      ghost var h := a[first..last];
      if smallest == current {
        SiftDone(h, MinHeap, 0, current);
        break;
      }
      SiftStep(h, MinHeap, 0, current, smallest);
      Swap(a, first, last, current, smallest);
      current := smallest;
    }
  }

  /**
   * The comparisons in `replaceMin`'s loop: the offset of the smallest among
   * the node at offset `current` of the heap `a[first..last]` and its
   * in-range children, preferring the node itself and then the left child
   * when levels tie. It moves off `current` only to a strictly smaller child.
   */
  method SmallestOfFamily(a: array<Player>, first: nat, last: nat, current: nat) returns (smallest: nat)
    requires first + current < last <= a.Length
    ensures smallest == current ||
      (current < smallest < last - first && IsChild(current, smallest) &&
       a[first..last][smallest].level < a[first..last][current].level)
    ensures forall j :: current < j < last - first && IsChild(current, j) ==>
      a[first..last][smallest].level <= a[first..last][j].level
  {
    var heapSize := last - first;
    var leftChildIdx := 2 * current + 1;
    var rightChildIdx := 2 * current + 2;
    smallest := current;
    if leftChildIdx < heapSize && a[first + leftChildIdx].level < a[first + smallest].level {
      smallest := leftChildIdx;
    }
    if rightChildIdx < heapSize && a[first + rightChildIdx].level < a[first + smallest].level {
      smallest := rightChildIdx;
    }
  }

  /**
   * The population counts at which `rankIncoming` records a cutoff: every
   * positive multiple of `interval` up to `count`, and `count` itself.
   */
  function Milestones(count: nat, interval: nat): set<nat>
    requires interval > 0
  {
    Multiples(count, interval) + (if count > 0 then {count} else {})
  }

  /** The positive multiples of `interval` up to `count`. */
  function Multiples(count: nat, interval: nat): set<nat>
    requires interval > 0
  {
    set m: nat | 0 < m <= count && m % interval == 0
  }

  /** There are `count / interval` positive multiples of `interval` up to `count`. */
  lemma {:induction false} MultiplesCount(count: nat, interval: nat)
    requires interval > 0
    ensures |Multiples(count, interval)| == count / interval
  {
    if count == 0 {
      assert Multiples(0, interval) == {};
    } else {
      MultiplesCount(count - 1, interval);
      if count % interval == 0 {
        assert Multiples(count, interval) == Multiples(count - 1, interval) + {count};
        DivStep(count, interval);
      } else {
        assert Multiples(count, interval) == Multiples(count - 1, interval);
        DivStep(count, interval);
      }
    }
  }

  /** Going from `count - 1` to `count` raises the quotient exactly when `count` is a multiple. */
  lemma DivStep(count: nat, interval: nat)
    requires interval > 0 && count > 0
    ensures count / interval == (count - 1) / interval + (if count % interval == 0 then 1 else 0)
  {
    var q, r := (count - 1) / interval, (count - 1) % interval;
    assert count - 1 == interval * q + r && r < interval;
    if r + 1 == interval {
      DivUnique(count, interval, q + 1, 0);
    } else {
      DivUnique(count, interval, q, r + 1);
    }
  }

  /** Quotient and remainder are the only ones: `a == k * q + r` with `r < k` fixes both. */
  lemma DivUnique(a: nat, k: nat, q: nat, r: nat)
    requires k > 0 && r < k && a == k * q + r
    ensures a / k == q && a % k == r
  {
    var d, e := a / k, a % k;
    assert a == k * d + e && 0 <= e < k;
    if d > q {
      ProductNonneg(k, d - q - 1);
    } else if d < q {
      ProductNonneg(k, q - d - 1);
    }
  }

  lemma ProductNonneg(a: nat, b: nat)
    ensures a * b >= 0
  {
  }

  /**
   * How many cutoffs `rankIncoming` reports: one per full interval, plus one
   * for the final count when it is not itself a multiple.
   */
  lemma MilestonesCount(count: nat, interval: nat)
    requires interval > 0
    ensures |Milestones(count, interval)| == count / interval + (if count % interval == 0 then 0 else 1)
  {
    MultiplesCount(count, interval);
    var ms := Multiples(count, interval);
    if count > 0 && count % interval != 0 {
      assert count !in ms;
      assert |ms + {count}| == |ms| + 1;
    } else {
      assert Milestones(count, interval) == ms;
    }
  }

  /** The documented example: 132 records at an interval of 50 give the milestones 50, 100 and 132. */
  lemma MilestonesExample()
    ensures Milestones(132, 50) == {50, 100, 132}
  {
    forall m: nat | m in Multiples(132, 50) ensures m == 50 || m == 100 {
      if m < 50 {
        DivUnique(m, 50, 0, m);
      } else if 50 < m < 100 {
        DivUnique(m, 50, 1, m - 50);
      } else if 100 < m {
        DivUnique(m, 50, 2, m - 100);
      }
    }
    assert 50 in Multiples(132, 50) && 100 in Multiples(132, 50);
  }

  /**
   * The state of `rankIncoming`'s buffer after the records `seen`: it holds
   * `min(|seen|, k)` records; until it is full they are exactly the arrivals
   * in order, and once full it is a min-heap holding a top-k selection.
   */
  ghost predicate BufferInv(buf: seq<Player>, size: nat, seen: seq<Player>, k: nat)
  {
    |buf| == k && size == Min(|seen|, k) &&
    (size < k ==> buf[..size] == seen) &&
    (size == k ==> IsHeap(buf, MinHeap) && IsTopK(buf, seen, k))
  }

  /**
   * The cutoffs recorded after the records `seen`: one per positive multiple
   * of `k` so far, each the cutoff level of the records read up to it.
   */
  ghost predicate CutoffsInv(cutoffs: map<nat, nat>, seen: seq<Player>, k: nat)
    requires k > 0
  {
    (forall m :: m in cutoffs <==> 0 < m <= |seen| && m % k == 0) &&
    (forall m :: m in cutoffs ==> k <= m <= |seen| && IsCutoffOf(cutoffs[m], seen[..m], k))
  }

  lemma MultipleReachesInterval(count: nat, k: nat)
    requires k > 0 && count > 0 && count % k == 0
    ensures k <= count
  {
  }

  /** A record arriving at a count that is not a multiple of `k` leaves the cutoffs as they were. */
  lemma CutoffsSkip(cutoffs: map<nat, nat>, seen: seq<Player>, p: Player, k: nat)
    requires k > 0 && CutoffsInv(cutoffs, seen, k)
    requires (|seen| + 1) % k != 0
    ensures CutoffsInv(cutoffs, seen + [p], k)
  {
    forall m | m in cutoffs ensures (seen + [p])[..m] == seen[..m] {
    }
  }

  /** At a multiple of `k`, recording the cutoff level of everything read keeps the cutoffs complete. */
  lemma CutoffsRecord(cutoffs: map<nat, nat>, seen: seq<Player>, p: Player, k: nat, v: nat)
    requires k > 0 && CutoffsInv(cutoffs, seen, k)
    requires (|seen| + 1) % k == 0
    requires IsCutoffOf(v, seen + [p], k)
    ensures CutoffsInv(cutoffs[|seen| + 1 := v], seen + [p], k)
  {
    MultipleReachesInterval(|seen| + 1, k);
    forall m | m in cutoffs ensures (seen + [p])[..m] == seen[..m] {
    }
    assert (seen + [p])[..|seen| + 1] == seen + [p];
  }

  /**
   * Recording a value under the final count unless it is already a
   * milestone leaves exactly the milestones as keys.
   */
  lemma FinalCutoffKeys(cutoffs: map<nat, nat>, seen: seq<Player>, k: nat, v: nat)
    requires k > 0 && |seen| > 0 && CutoffsInv(cutoffs, seen, k)
    ensures (if |seen| in cutoffs then cutoffs else cutoffs[|seen| := v]).Keys == Milestones(|seen|, k)
  {
    var final := if |seen| in cutoffs then cutoffs else cutoffs[|seen| := v];
    forall m: nat ensures m in final.Keys <==> m in Milestones(|seen|, k) {
      if m in Milestones(|seen|, k) && m != |seen| {
        assert m in cutoffs;
      }
    }
  }

  /**
   * The final cutoff rule of `rankIncoming`: once the stream is drained,
   * record `v` under the final count unless that count is already a
   * milestone. The keys are then exactly the milestones, and every recorded
   * level from `k` records on is a cutoff level, provided `v` is one.
   */
  lemma FinalCutoffs(cutoffs: map<nat, nat>, seen: seq<Player>, k: nat, v: nat)
    requires k > 0 && |seen| > 0 && CutoffsInv(cutoffs, seen, k)
    requires |seen| !in cutoffs && k <= |seen| ==> IsCutoffOf(v, seen, k)
    ensures var final := if |seen| in cutoffs then cutoffs else cutoffs[|seen| := v];
      final.Keys == Milestones(|seen|, k) &&
      forall m :: m in final && k <= m ==> m <= |seen| && IsCutoffOf(final[m], seen[..m], k)
  {
    FinalCutoffKeys(cutoffs, seen, k, v);
    assert seen[..|seen|] == seen;
  }

  /**
   * How one arrival `p` changes a buffer `buf` holding `size` records into
   * `buf'` holding `size'`: while not full, `p` goes into the next free slot
   * (the buffer is then rearranged only when that fills it); once full, a
   * newcomer no higher than the root leaves the buffer as it was, and one
   * strictly higher takes the root's place.
   */
  ghost predicate Admitted(buf: seq<Player>, size: nat, p: Player, buf': seq<Player>, size': nat)
    requires 0 < |buf| && size <= |buf|
  {
    if size < |buf| then
      size' == size + 1 && multiset(buf') == multiset(buf[size := p]) &&
      (size' < |buf| ==> buf' == buf[size := p])
    else if p.level <= buf[0].level then
      size' == size && buf' == buf
    else
      size' == size && multiset(buf') == multiset(buf[0 := p])
  }

  /**
   * The buffer update of `rankIncoming` for one arrival `p`: append it while
   * the buffer is not full, heapifying the moment it fills; once full, let
   * `p` replace the root only when its level is strictly greater.
   */
  method Admit(topPlayers: array<Player>, size: nat, p: Player, ghost seen: seq<Player>) returns (newSize: nat)
    requires BufferInv(topPlayers[..], size, seen, topPlayers.Length) && topPlayers.Length > 0
    modifies topPlayers
    ensures BufferInv(topPlayers[..], newSize, seen + [p], topPlayers.Length)
    ensures Admitted(old(topPlayers[..]), size, p, topPlayers[..], newSize)
  {
    var interval := topPlayers.Length;
    ghost var buf := topPlayers[..];
    newSize := size;
    if newSize < interval {
      topPlayers[newSize] := p;
      newSize := newSize + 1;
      assert topPlayers[..] == buf[size := p];
      FillStep(buf, size, seen, p, interval);
      if newSize == interval {
        MakeHeap(topPlayers, MinHeap);
        TopKOfAll(topPlayers[..], seen + [p], interval);
      }
    } else {
      MinHeapRoot(buf);
      if p.level > topPlayers[0].level {
        assert topPlayers[0..topPlayers.Length] == buf;
        ReplaceMin(topPlayers, 0, topPlayers.Length, p);
        assert topPlayers[0..topPlayers.Length] == topPlayers[..];
        TopKReplace(buf, topPlayers[..], seen, p, interval);
      } else {
        TopKSkip(buf, seen, p, interval);
      }
    }
  }

  /**
   * `Online::rankIncoming`: drain the stream, keeping the best `interval`
   * records in a buffer (filled in arrival order, heapified as a min-heap the
   * moment it is full, then updated by `ReplaceMin` for every newcomer
   * strictly above its root), record the root's level at every multiple of
   * `interval` and at the final count, and return the buffer sorted. The
   * final cutoff is the least level buffered (see `Finish`).
   */
  method RankIncoming(stream: VectorPlayerStream, interval: nat) returns (result: RankingResult)
    requires stream.Valid()
    requires interval > 0
    requires stream.Remaining() > 0
    modifies stream
    ensures stream.Valid() && stream.Remaining() == 0
    ensures Sorted(result.top)
    ensures IsTopK(result.top, old(stream.Unread()), interval)
    ensures result.cutoffs.Keys == Milestones(|old(stream.Unread())|, interval)
    ensures forall m :: m in result.cutoffs && interval <= m ==>
      m <= |old(stream.Unread())| && IsCutoffOf(result.cutoffs[m], old(stream.Unread())[..m], interval)
    ensures |old(stream.Unread())| < interval ==>
      result.cutoffs[|old(stream.Unread())|] == LeastLevel(old(stream.Unread()))
  {
    ghost var input := stream.Unread();
    var topPlayers, size, cutoffs, playerCount := Drain(stream, interval);
    result := Finish(topPlayers, size, cutoffs, playerCount, input);
  }

  /**
   * `Online::rankIncoming` as written: the same drain, but the final cutoff
   * is the level at the front of the buffer (see `FinishAsWritten`).
   */
  method RankIncomingAsWritten(stream: VectorPlayerStream, interval: nat) returns (result: RankingResult)
    requires stream.Valid()
    requires interval > 0
    requires stream.Remaining() > 0
    modifies stream
    ensures stream.Valid() && stream.Remaining() == 0
    ensures Sorted(result.top)
    ensures IsTopK(result.top, old(stream.Unread()), interval)
    ensures result.cutoffs.Keys == Milestones(|old(stream.Unread())|, interval)
    ensures forall m :: m in result.cutoffs && interval <= m ==>
      m <= |old(stream.Unread())| && IsCutoffOf(result.cutoffs[m], old(stream.Unread())[..m], interval)
    ensures |old(stream.Unread())| < interval ==>
      result.cutoffs[|old(stream.Unread())|] == old(stream.Unread())[0].level
  {
    ghost var input := stream.Unread();
    var topPlayers, size, cutoffs, playerCount := Drain(stream, interval);
    result := FinishAsWritten(topPlayers, size, cutoffs, playerCount, input);
  }

  /**
   * The loop of `rankIncoming`: read every remaining record, admit each to
   * the buffer and record the root's level at every multiple of `interval`.
   */
  method Drain(stream: VectorPlayerStream, interval: nat)
    returns (topPlayers: array<Player>, size: nat, cutoffs: map<nat, nat>, playerCount: nat)
    requires stream.Valid()
    requires interval > 0
    requires stream.Remaining() > 0
    modifies stream
    ensures fresh(topPlayers) && topPlayers.Length == interval
    ensures stream.Valid() && stream.Remaining() == 0
    ensures playerCount == |old(stream.Unread())| > 0
    ensures BufferInv(topPlayers[..], size, old(stream.Unread()), interval)
    ensures CutoffsInv(cutoffs, old(stream.Unread()), interval)
  {
    ghost var input := stream.Unread();
    ghost var start := stream.index;
    ghost var seen: seq<Player> := [];
    topPlayers := new Player[interval];
    size := 0;
    cutoffs := map[];
    playerCount := 0;
    while stream.Remaining() > 0
      invariant stream.Valid()
      invariant playerCount == |seen| <= |input| && stream.index == start + playerCount
      invariant seen == input[..playerCount]
      invariant BufferInv(topPlayers[..], size, seen, interval)
      invariant CutoffsInv(cutoffs, seen, interval)
      decreases stream.Remaining()
    {
      var next := stream.NextPlayer();
      var currentPlayer := next.value;
      assert input[..playerCount + 1] == seen + [currentPlayer];
      playerCount := playerCount + 1;
      size, cutoffs := Arrive(topPlayers, size, cutoffs, playerCount, currentPlayer, seen);
      seen := seen + [currentPlayer];
    }

    assert seen == input by {
      assert input[..|input|] == input;
    }
  }

  /**
   * One pass of `rankIncoming`'s loop after the record `p` is read as the
   * `count`-th: admit it to the buffer, then record a cutoff if `count` is a
   * multiple of the buffer's capacity.
   */
  method Arrive(topPlayers: array<Player>, size: nat, cutoffs: map<nat, nat>, count: nat, p: Player,
                ghost seen: seq<Player>) returns (newSize: nat, updated: map<nat, nat>)
    requires topPlayers.Length > 0 && count == |seen| + 1
    requires BufferInv(topPlayers[..], size, seen, topPlayers.Length)
    requires CutoffsInv(cutoffs, seen, topPlayers.Length)
    modifies topPlayers
    ensures BufferInv(topPlayers[..], newSize, seen + [p], topPlayers.Length)
    ensures CutoffsInv(updated, seen + [p], topPlayers.Length)
  {
    newSize := Admit(topPlayers, size, p, seen);
    assert (seen + [p])[..count - 1] == seen;
    updated := RecordCutoff(cutoffs, count, topPlayers, newSize, seen + [p], seen);
  }

  /**
   * The cutoff step of `rankIncoming` after the arrival that made the count
   * `count`: at a multiple of the buffer capacity, record the root's level.
   */
  method RecordCutoff(cutoffs: map<nat, nat>, count: nat, topPlayers: array<Player>, size: nat,
                      ghost seen: seq<Player>, ghost before: seq<Player>) returns (updated: map<nat, nat>)
    requires topPlayers.Length > 0 && count == |seen| > 0 && before == seen[..count - 1]
    requires BufferInv(topPlayers[..], size, seen, topPlayers.Length)
    requires CutoffsInv(cutoffs, before, topPlayers.Length)
    ensures CutoffsInv(updated, seen, topPlayers.Length)
  {
    var interval := topPlayers.Length;
    assert seen == before + [seen[count - 1]];
    if count % interval == 0 {
      MultipleReachesInterval(count, interval);
      MinHeapRoot(topPlayers[..]);
      TopKMinIsCutoff(topPlayers[..], seen, interval);
      CutoffsRecord(cutoffs, before, seen[count - 1], interval, topPlayers[0].level);
      updated := cutoffs[count := topPlayers[0].level];
    } else {
      CutoffsSkip(cutoffs, before, seen[count - 1], interval);
      updated := cutoffs;
    }
  }

  /**
   * The end of `rankIncoming` as written: once the stream is drained after
   * the records `input`, record the level at the front of the buffer under
   * the final count unless it is already a milestone, and return the buffer
   * sorted ascending. When fewer than `interval` records arrived the buffer
   * was never heapified, so its front is simply the first record read.
   */
  method FinishAsWritten(topPlayers: array<Player>, size: nat, cutoffs: map<nat, nat>, count: nat,
                         ghost input: seq<Player>) returns (result: RankingResult)
    requires topPlayers.Length > 0 && count == |input| > 0
    requires BufferInv(topPlayers[..], size, input, topPlayers.Length)
    requires CutoffsInv(cutoffs, input, topPlayers.Length)
    ensures Sorted(result.top)
    ensures IsTopK(result.top, input, topPlayers.Length)
    ensures result.cutoffs.Keys == Milestones(|input|, topPlayers.Length)
    ensures forall m :: m in result.cutoffs && topPlayers.Length <= m ==>
      m <= |input| && IsCutoffOf(result.cutoffs[m], input[..m], topPlayers.Length)
    ensures |input| < topPlayers.Length ==> result.cutoffs[|input|] == input[0].level
  {
    var final := cutoffs;
    if count !in cutoffs {
      final := cutoffs[count := topPlayers[0].level];
    }
    if size == topPlayers.Length {
      MinHeapRoot(topPlayers[..]);
      TopKMinIsCutoff(topPlayers[..], input, topPlayers.Length);
    }
    FinalCutoffs(cutoffs, input, topPlayers.Length, topPlayers[0].level);
    var sorted := SortBuffer(topPlayers, size, input);
    result := RankingResult(sorted, final);
  }

  /**
   * The end of `rankIncoming` with the final cutoff its documentation
   * promises: the least level among the buffered records. A full buffer is a
   * min-heap and that level is at its front; a buffer that never filled holds
   * every record read, unordered, and its least level is searched for.
   */
  method Finish(topPlayers: array<Player>, size: nat, cutoffs: map<nat, nat>, count: nat, ghost input: seq<Player>)
    returns (result: RankingResult)
    requires topPlayers.Length > 0 && count == |input| > 0
    requires BufferInv(topPlayers[..], size, input, topPlayers.Length)
    requires CutoffsInv(cutoffs, input, topPlayers.Length)
    ensures Sorted(result.top)
    ensures IsTopK(result.top, input, topPlayers.Length)
    ensures result.cutoffs.Keys == Milestones(|input|, topPlayers.Length)
    ensures forall m :: m in result.cutoffs && topPlayers.Length <= m ==>
      m <= |input| && IsCutoffOf(result.cutoffs[m], input[..m], topPlayers.Length)
    ensures |input| < topPlayers.Length ==> result.cutoffs[|input|] == LeastLevel(input)
  {
    var interval := topPlayers.Length;
    var least: nat;
    if size == interval {
      least := topPlayers[0].level;
      MinHeapRoot(topPlayers[..]);
      TopKMinIsCutoff(topPlayers[..], input, interval);
    } else {
      least := LeastLevel(topPlayers[..size]);
    }
    var final := cutoffs;
    if count !in cutoffs {
      final := cutoffs[count := least];
    }
    FinalCutoffs(cutoffs, input, interval, least);
    var sorted := SortBuffer(topPlayers, size, input);
    result := RankingResult(sorted, final);
  }

  /** The buffer's records sorted ascending: a top selection of everything read. */
  method SortBuffer(topPlayers: array<Player>, size: nat, ghost input: seq<Player>) returns (top: seq<Player>)
    requires BufferInv(topPlayers[..], size, input, topPlayers.Length)
    ensures Sorted(top)
    ensures IsTopK(top, input, topPlayers.Length)
  {
    if size < topPlayers.Length {
      TopKOfAll(topPlayers[..size], input, topPlayers.Length);
    } else {
      assert topPlayers[..size] == topPlayers[..];
    }
    top := SortAscending(topPlayers[..size]);
    TopKPermuted(topPlayers[..size], top, input, topPlayers.Length);
  }

  /**
   * The two endings on the stream `("a", 5), ("b", 3)` with an interval of 3:
   * as written, the final cutoff is 5, the level of the first record read;
   * corrected, it is 3, the least level read.
   */
  method ShortStreamCutoffs() returns (asWritten: nat, corrected: nat)
    ensures asWritten == 5 && corrected == 3
  {
    var input := [Player("a", 5), Player("b", 3)];
    assert input[1..] == [Player("b", 3)];
    var s1 := new VectorPlayerStream(input);
    var r1 := RankIncomingAsWritten(s1, 3);
    var s2 := new VectorPlayerStream(input);
    var r2 := RankIncoming(s2, 3);
    assert 2 in Milestones(2, 3);
    asWritten := r1.cutoffs[2];
    corrected := r2.cutoffs[2];
  }

  /** Appending an arrival to a buffer that is not yet full keeps it equal to the arrivals. */
  lemma FillStep(buf: seq<Player>, size: nat, seen: seq<Player>, p: Player, k: nat)
    requires BufferInv(buf, size, seen, k) && size < k
    ensures size + 1 == Min(|seen| + 1, k)
    ensures buf[size := p][..size + 1] == seen + [p]
    ensures size + 1 < k ==> BufferInv(buf[size := p], size + 1, seen + [p], k)
    ensures size + 1 == k ==> buf[size := p] == seen + [p]
  {
    assert buf[size := p][..size + 1] == seen + [p];
  }
}
