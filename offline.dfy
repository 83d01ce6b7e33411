/**
 * The offline rankers: the whole population sits in the caller's vector,
 * which both rankers rearrange in place. The caller's `std::vector` is an
 * array; the slots past the size `HeapRank` returns are the ones its
 * `pop_back` calls removed.
 */
module Offline {
  import opened Players
  import opened Stl

  /** How many records the offline rankers select: ten percent, rounded down. */
  function TopCount(n: nat): nat
  {
    n / 10
  }

  /**
   * `Offline::heapRank`: heapify the vector as a max-heap, pop the maximum
   * `N/10` times (each pop shrinks the vector by one), and return the popped
   * records sorted ascending. `size` is the vector's size afterwards; what is
   * left in `players[..size]` is still a max-heap.
   */
  method HeapRank(players: array<Player>) returns (result: RankingResult, size: nat)
    modifies players
    ensures size == players.Length - TopCount(players.Length)
    ensures |result.top| == TopCount(players.Length)
    ensures Sorted(result.top)
    ensures result.cutoffs == map[]
    ensures multiset(result.top) + multiset(players[..size]) == old(multiset(players[..]))
    ensures forall x, y :: x in players[..size] && y in result.top ==> x.level <= y.level
    ensures IsHeap(players[..size], MaxHeap)
    ensures IsTopK(result.top, old(players[..]), TopCount(players.Length))
  {
    MakeHeap(players, MaxHeap);
    assert players[0..players.Length] == players[..];
    var topCount := TopCount(players.Length);
    var topPlayers: seq<Player> := [];
    size := players.Length;
    for i := 0 to topCount
      invariant size == players.Length - i
      invariant |topPlayers| == i
      invariant IsHeap(players[0..size], MaxHeap)
      invariant multiset(topPlayers) + multiset(players[0..size]) == old(multiset(players[..]))
      invariant forall x, y :: x in players[0..size] && y in topPlayers ==> x.level <= y.level
    {
      ghost var heap := players[0..size];
      PopHeap(players, size, MaxHeap);
      var popped := players[size - 1];
      PopStep(heap, players[0..size], topPlayers, old(players[..]));
      assert players[0..size][..size - 1] == players[0..size - 1];
      topPlayers := topPlayers + [popped];
      size := size - 1;
    }
    var sorted := SortAscending(topPlayers);
    assert players[0..size] == players[..size];
    HeapRankSelects(players[..size], topPlayers, sorted, old(players[..]));
    result := RankingResult(sorted, map[]);
  }

  /**
   * The end of `heapRank`: the popped records, split off from the rest of the
   * population with nothing left behind above any of them, sorted, are a top
   * selection that stays above everything left behind.
   */
  lemma HeapRankSelects(rest: seq<Player>, popped: seq<Player>, sorted: seq<Player>, population: seq<Player>)
    requires multiset(popped) + multiset(rest) == multiset(population)
    requires |popped| == TopCount(|population|)
    requires forall x, y :: x in rest && y in popped ==> x.level <= y.level
    requires multiset(sorted) == multiset(popped)
    ensures multiset(sorted) + multiset(rest) == multiset(population)
    ensures forall x, y :: x in rest && y in sorted ==> x.level <= y.level
    ensures IsTopK(sorted, population, TopCount(|population|))
  {
    TopKOfSplit(popped, rest, population, TopCount(|population|));
    TopKPermuted(popped, sorted, population, TopCount(|population|));
    BoundPermuted(rest, popped, sorted);
  }

  /**
   * `Offline::quickSelectRank`: partition the vector at `k = N - N/10` and
   * return `players[k..]` sorted ascending. The vector keeps its size; it is
   * left a permutation of the input split at `k`.
   */
  method QuickSelectRank(players: array<Player>) returns (result: RankingResult)
    modifies players
    ensures multiset(players[..]) == old(multiset(players[..]))
    ensures forall i, j :: 0 <= i < players.Length - TopCount(players.Length) <= j < players.Length ==>
      players[i].level <= players[j].level
    ensures |result.top| == TopCount(players.Length)
    ensures Sorted(result.top)
    ensures multiset(result.top) == multiset(players[players.Length - TopCount(players.Length)..])
    ensures result.cutoffs == map[]
    ensures IsTopK(result.top, old(players[..]), TopCount(players.Length))
  {
    var n := players.Length;
    var k := n - TopCount(n);
    NthElement(players, k);
    var topPlayers := players[k..];
    var sorted := SortAscending(topPlayers);
    SelectedTop(players[..], k, old(players[..]), sorted);
    result := RankingResult(sorted, map[]);
  }

  /**
   * A rearrangement `s` of the population split at `k`, with nothing before
   * `k` above anything from `k` on: any reordering of `s[k..]` is a top
   * selection of the population.
   */
  lemma SelectedTop(s: seq<Player>, k: nat, population: seq<Player>, t: seq<Player>)
    requires k <= |s| && multiset(s) == multiset(population)
    requires forall i, j :: 0 <= i < k <= j < |s| ==> s[i].level <= s[j].level
    requires multiset(t) == multiset(s[k..])
    ensures IsTopK(t, population, |s| - k)
  {
    assert |population| == |multiset(population)| == |s|;
    SplitMultiset(s, k);
    forall x, y | x in s[..k] && y in s[k..] ensures x.level <= y.level {
      var i :| 0 <= i < k && s[..k][i] == x;
      var j :| 0 <= j < |s| - k && s[k..][j] == y;
      assert s[i] == x && s[k + j] == y;
    }
    TopKOfSplit(s[k..], s[..k], population, |s| - k);
    TopKPermuted(s[k..], t, population, |s| - k);
  }

  /**
   * One round of `heapRank`'s loop: `pop_heap` moves the maximum of the heap
   * to its back; appending it to the selection and dropping it from the heap
   * keeps the selection and the heap a split of the population, with nothing
   * left in the heap above anything selected.
   */
  lemma PopStep(heap: seq<Player>, popped: seq<Player>, top: seq<Player>, population: seq<Player>)
    requires 0 < |heap| && IsHeap(heap, MaxHeap)
    requires |popped| == |heap| && popped[|popped| - 1] == heap[0]
    requires multiset(popped) == multiset(heap)
    requires multiset(top) + multiset(heap) == multiset(population)
    requires forall x, y :: x in heap && y in top ==> x.level <= y.level
    ensures multiset(top + [heap[0]]) + multiset(popped[..|popped| - 1]) == multiset(population)
    ensures forall x, y :: x in popped[..|popped| - 1] && y in top + [heap[0]] ==> x.level <= y.level
  {
    var rest := popped[..|popped| - 1];
    assert popped == rest + [heap[0]];
    assert multiset(rest) + multiset{heap[0]} == multiset(heap);
    forall x, y | x in rest && y in top + [heap[0]] ensures x.level <= y.level {
      assert x in multiset(heap);
      var k :| 0 <= k < |heap| && heap[k] == x;
      RootPrecedesAll(heap, MaxHeap, k);
    }
  }

  /** Reordering the selection keeps it above the remainder. */
  lemma BoundPermuted(rest: seq<Player>, t: seq<Player>, t': seq<Player>)
    requires forall x, y :: x in rest && y in t ==> x.level <= y.level
    requires multiset(t') == multiset(t)
    ensures forall x, y :: x in rest && y in t' ==> x.level <= y.level
  {
    forall x, y | x in rest && y in t' ensures x.level <= y.level {
      assert y in multiset(t');
    }
  }

  /**
   * The two offline rankers agree: on the same population, `HeapRank` and
   * `QuickSelectRank` return the same number of records with the same levels.
   */
  lemma RankersAgree(population: seq<Player>, byHeap: RankingResult, bySelect: RankingResult)
    requires IsTopK(byHeap.top, population, TopCount(|population|))
    requires IsTopK(bySelect.top, population, TopCount(|population|))
    ensures |byHeap.top| == |bySelect.top| == TopCount(|population|)
    ensures Levels(byHeap.top) == Levels(bySelect.top)
  {
    TopKLevelsAgree(byHeap.top, bySelect.top, population, TopCount(|population|));
  }
}
