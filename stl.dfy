/**
 * The C++ standard-library algorithms the rankers call (`std::make_heap`,
 * `std::pop_heap`, `std::nth_element`, `std::sort`), each given by the
 * postcondition the standard promises. Their bodies are plain reference
 * implementations that meet those postconditions; they are not the library's
 * internals.
 */
module Stl {
  import opened Players

  /** `std::less` heaps (largest at the root) and `std::greater` heaps (smallest at the root). */
  datatype HeapOrder = MaxHeap | MinHeap

  /** The heap's sort key: the root holds the least key. */
  function Key(o: HeapOrder, x: Player): int
  {
    if o == MaxHeap then -(x.level as int) else x.level
  }

  /** `x` may sit above `y` in a heap of order `o`. */
  predicate Precedes(o: HeapOrder, x: Player, y: Player)
  {
    Key(o, x) <= Key(o, y)
  }

  /** `j` is a child of `i` in the 0-indexed binary-heap layout. */
  predicate IsChild(i: int, j: int)
  {
    j == 2 * i + 1 || j == 2 * i + 2
  }

  /**
   * Heap order holds for every parent/child pair of `s` whose parent index is
   * at least `lo` and is not `hole` (the position being sifted).
   */
  ghost predicate HeapFrom(s: seq<Player>, o: HeapOrder, lo: nat, hole: int)
  {
    forall i, j {:trigger s[i], s[j]} :: lo <= i < j < |s| && i != hole && IsChild(i, j) ==> Precedes(o, s[i], s[j])
  }

  ghost predicate IsHeap(s: seq<Player>, o: HeapOrder)
  {
    HeapFrom(s, o, 0, -1)
  }

  /**
   * While `hole` is sifted down from `lo`: its parent (when that lies in the
   * sifted range) may sit above each of its children.
   */
  ghost predicate Bridged(s: seq<Player>, o: HeapOrder, lo: nat, hole: nat)
  {
    hole > lo ==>
      lo <= (hole - 1) / 2 < |s| &&
      forall j {:trigger s[j]} :: hole < j < |s| && IsChild(hole, j) ==> Precedes(o, s[(hole - 1) / 2], s[j])
  }

  /** The root of a heap precedes every element (so a min-heap's root is its minimum). */
  lemma {:induction false} RootPrecedesAll(s: seq<Player>, o: HeapOrder, k: nat)
    requires IsHeap(s, o) && k < |s|
    ensures Precedes(o, s[0], s[k])
    decreases k
  {
    if k > 0 {
      var p := (k - 1) / 2;
      RootPrecedesAll(s, o, p);
      assert IsChild(p, k);
    }
  }

  /** The root of a min-heap holds its least level. */
  lemma MinHeapRoot(s: seq<Player>)
    requires 0 < |s| && IsHeap(s, MinHeap)
    ensures forall y :: y in s ==> s[0].level <= y.level
  {
    forall y | y in s ensures s[0].level <= y.level {
      var k :| 0 <= k < |s| && s[k] == y;
      RootPrecedesAll(s, MinHeap, k);
    }
  }

  /** Overwriting the root of a heap leaves a heap whose only possible fault is at the root. */
  lemma RootReplaced(s: seq<Player>, o: HeapOrder, x: Player)
    requires 0 < |s| && IsHeap(s, o)
    ensures HeapFrom(s[0 := x], o, 0, 0) && Bridged(s[0 := x], o, 0, 0)
  {
  }

  /**
   * One step of a sift-down: swapping the hole with its best child `b`, which
   * strictly beats it, moves the hole to `b` and keeps every other pair ordered.
   */
  lemma SiftStep(s: seq<Player>, o: HeapOrder, lo: nat, c: nat, b: nat)
    requires lo <= c < b < |s| && IsChild(c, b)
    requires HeapFrom(s, o, lo, c) && Bridged(s, o, lo, c)
    requires !Precedes(o, s[c], s[b])
    requires forall j :: c < j < |s| && IsChild(c, j) ==> Precedes(o, s[b], s[j])
    ensures HeapFrom(s[c := s[b]][b := s[c]], o, lo, b)
    ensures Bridged(s[c := s[b]][b := s[c]], o, lo, b)
  {
    var t := s[c := s[b]][b := s[c]];
    forall i, j | lo <= i < j < |t| && i != b && IsChild(i, j)
      ensures Precedes(o, t[i], t[j])
    {
      if i == c {
      } else if j == c {
        assert i == (c - 1) / 2;
      } else if j == b {
        assert false;
      } else {
        assert i != c && t[i] == s[i] && t[j] == s[j];
      }
    }
  }

  /** Swapping two positions permutes a sequence. */
  lemma SwapPermutes(s: seq<Player>, i: nat, j: nat)
    requires i < |s| && j < |s|
    ensures multiset(s[i := s[j]][j := s[i]]) == multiset(s)
  {
    var t := s[i := s[j]];
    assert multiset(t) == multiset(s) - multiset{s[i]} + multiset{s[j]};
  }

  /**
   * `std::swap` of two slots of the segment `a[first..last]`, given by their
   * offsets `i` and `j` from `first`.
   */
  method Swap(a: array<Player>, first: nat, last: nat, i: nat, j: nat)
    requires first + i < last && first + j < last && last <= a.Length
    modifies a
    ensures a[first..last] == old(a[first..last])[i := old(a[first..last])[j]][j := old(a[first..last])[i]]
    ensures multiset(a[first..last]) == old(multiset(a[first..last]))
    ensures forall k :: 0 <= k < first || last <= k < a.Length ==> a[k] == old(a[k])
  {
    ghost var s := a[first..last];
    SwapPermutes(s, i, j);
    a[first + i], a[first + j] := a[first + j], a[first + i];
    assert a[first..last] == s[i := s[j]][j := s[i]];
  }

  /** A sift-down stops once the hole precedes each of its children. */
  lemma SiftDone(s: seq<Player>, o: HeapOrder, lo: nat, c: nat)
    requires lo <= c < |s|
    requires HeapFrom(s, o, lo, c)
    requires forall j :: c < j < |s| && IsChild(c, j) ==> Precedes(o, s[c], s[j])
    ensures HeapFrom(s, o, lo, -1)
  {
  }

  /** Sift the element at `lo` down until every pair under `lo` is heap-ordered (internal to the heap algorithms). */
  method SiftDown(a: array<Player>, n: nat, lo: nat, o: HeapOrder)
    requires lo < n <= a.Length
    requires HeapFrom(a[0..n], o, lo + 1, -1)
    modifies a
    ensures HeapFrom(a[0..n], o, lo, -1)
    ensures multiset(a[0..n]) == old(multiset(a[0..n]))
    ensures forall k :: n <= k < a.Length ==> a[k] == old(a[k])
  {
    var c := lo;
    while true
      invariant lo <= c < n
      invariant HeapFrom(a[0..n], o, lo, c) && Bridged(a[0..n], o, lo, c)
      invariant multiset(a[0..n]) == old(multiset(a[0..n]))
      invariant forall k :: n <= k < a.Length ==> a[k] == old(a[k])
      decreases n - c
    {
      var best := c;
      if 2 * c + 1 < n && !Precedes(o, a[best], a[2 * c + 1]) {
        best := 2 * c + 1;
      }
      if 2 * c + 2 < n && !Precedes(o, a[best], a[2 * c + 2]) {
        best := 2 * c + 2;
      }
      ghost var s := a[0..n];
      if best == c {
        SiftDone(s, o, lo, c);
        break;
      }
      SiftStep(s, o, lo, c, best);
      Swap(a, 0, n, c, best);
      c := best;
    }
  }

  /** `std::make_heap`: rearrange the whole array into a heap of order `o`. */
  method MakeHeap(a: array<Player>, o: HeapOrder)
    modifies a
    ensures IsHeap(a[..], o)
    ensures multiset(a[..]) == old(multiset(a[..]))
  {
    var i := a.Length / 2;
    while i > 0
      invariant 0 <= i <= a.Length / 2
      invariant HeapFrom(a[..], o, i, -1)
      invariant multiset(a[..]) == old(multiset(a[..]))
    {
      i := i - 1;
      assert a[0..a.Length] == a[..];
      SiftDown(a, a.Length, i, o);
      assert a[0..a.Length] == a[..];
    }
  }

  /** Once the root is swapped with the last slot, the heap minus that slot is ordered below its root. */
  lemma RootSwapped(s: seq<Player>, o: HeapOrder)
    requires 1 < |s| && IsHeap(s, o)
    ensures HeapFrom(s[0 := s[|s| - 1]][|s| - 1 := s[0]][..|s| - 1], o, 1, -1)
  {
    var t := s[0 := s[|s| - 1]][|s| - 1 := s[0]][..|s| - 1];
    forall i, j | 1 <= i < j < |t| && IsChild(i, j)
      ensures Precedes(o, t[i], t[j])
    {
      assert t[i] == s[i] && t[j] == s[j];
    }
  }

  /**
   * `std::pop_heap` on the prefix `a[..n]`: the root moves to slot `n - 1` and
   * `a[..n - 1]` is again a heap of the same order.
   */
  method PopHeap(a: array<Player>, n: nat, o: HeapOrder)
    requires 0 < n <= a.Length
    requires IsHeap(a[0..n], o)
    modifies a
    ensures IsHeap(a[0..n - 1], o)
    ensures a[n - 1] == old(a[0])
    ensures multiset(a[0..n]) == old(multiset(a[0..n]))
    ensures forall k :: n <= k < a.Length ==> a[k] == old(a[k])
  {
    if n == 1 {
      return;
    }
    ghost var s := a[0..n];
    Swap(a, 0, n, 0, n - 1);
    ghost var t := a[0..n];
    RootSwapped(s, o);
    assert a[0..n - 1] == t[..n - 1];
    SiftDown(a, n - 1, 0, o);
    ghost var u := a[0..n];
    assert u[..n - 1] == a[0..n - 1] && u[n - 1] == t[n - 1];
    PopGlue(s, t, u);
  }

  /**
   * The bookkeeping of `pop_heap`: `t` is `s` with its first and last slots
   * swapped, and `u` rearranges all but the last slot of `t`.
   */
  lemma PopGlue(s: seq<Player>, t: seq<Player>, u: seq<Player>)
    requires 0 < |s| == |t| == |u|
    requires t == s[0 := s[|s| - 1]][|s| - 1 := s[0]]
    requires u[|u| - 1] == t[|t| - 1]
    requires multiset(u[..|u| - 1]) == multiset(t[..|t| - 1])
    ensures multiset(u) == multiset(s)
    ensures u[|u| - 1] == s[0]
  {
    assert u == u[..|u| - 1] + [u[|u| - 1]];
    assert t == t[..|t| - 1] + [t[|t| - 1]];
    SwapPermutes(s, 0, |s| - 1);
  }

  /** Index of a highest-level record in `a[..hi]`. */
  method MaxIndex(a: array<Player>, hi: nat) returns (m: nat)
    requires 0 < hi <= a.Length
    ensures m < hi
    ensures forall j :: 0 <= j < hi ==> a[j].level <= a[m].level
  {
    m := 0;
    for j := 1 to hi
      invariant m < j
      invariant forall p :: 0 <= p < j ==> a[p].level <= a[m].level
    {
      if a[m].level < a[j].level {
        m := j;
      }
    }
  }

  /** Nothing in `s[..i]` has a higher level than anything in `s[i..]`. */
  ghost predicate SplitAt(s: seq<Player>, i: nat)
  {
    forall p, q :: 0 <= p < i <= q < |s| ==> s[p].level <= s[q].level
  }

  /** `s[i..]` is ascending. */
  ghost predicate AscendingFrom(s: seq<Player>, i: nat)
  {
    forall q, r :: i <= q <= r < |s| ==> s[q].level <= s[r].level
  }

  /** Moving the highest record of `s[..i]` to slot `i - 1` extends the ascending, split-off tail by one. */
  lemma SelectStep(s: seq<Player>, i: nat, m: nat)
    requires m < i <= |s|
    requires SplitAt(s, i) && AscendingFrom(s, i)
    requires forall j :: 0 <= j < i ==> s[j].level <= s[m].level
    ensures SplitAt(s[m := s[i - 1]][i - 1 := s[m]], i - 1)
    ensures AscendingFrom(s[m := s[i - 1]][i - 1 := s[m]], i - 1)
  {
  }

  /**
   * `std::nth_element` at position `k`: the array is permuted so that nothing
   * before `k` has a higher level than anything from `k` on, and slot `k`
   * holds the least level of `a[k..]`.
   */
  method NthElement(a: array<Player>, k: nat)
    requires k <= a.Length
    modifies a
    ensures multiset(a[..]) == old(multiset(a[..]))
    ensures forall i, j :: 0 <= i < k <= j < a.Length ==> a[i].level <= a[j].level
    ensures forall j :: k <= j < a.Length ==> a[k].level <= a[j].level
  {
    var i := a.Length;
    assert a[0..a.Length] == a[..];
    while i > k
      invariant k <= i <= a.Length
      invariant multiset(a[0..a.Length]) == old(multiset(a[..]))
      invariant SplitAt(a[0..a.Length], i) && AscendingFrom(a[0..a.Length], i)
    {
      var m := MaxIndex(a, i);
      SelectStep(a[0..a.Length], i, m);
      Swap(a, 0, a.Length, m, i - 1);
      i := i - 1;
    }
    assert a[0..a.Length] == a[..];
    assert SplitAt(a[..], k) && AscendingFrom(a[..], k);
  }

  /** Insert `x` into an ascending sequence, keeping it ascending. */
  function Insert(x: Player, s: seq<Player>): (r: seq<Player>)
    requires Sorted(s)
    ensures Sorted(r)
    ensures multiset(r) == multiset(s) + multiset{x}
  {
    if s == [] || x.level <= s[0].level then
      [x] + s
    else
      var rest := Insert(x, s[1..]);
      assert s == [s[0]] + s[1..];
      BoundKept(s[0].level, x, s[1..], rest);
      [s[0]] + rest
  }

  /** A lower bound of `x` and of everything in `s` bounds any arrangement of them. */
  lemma BoundKept(v: nat, x: Player, s: seq<Player>, r: seq<Player>)
    requires v <= x.level && forall i :: 0 <= i < |s| ==> v <= s[i].level
    requires multiset(r) == multiset(s) + multiset{x}
    ensures forall i :: 0 <= i < |r| ==> v <= r[i].level
  {
    forall i | 0 <= i < |r| ensures v <= r[i].level {
      assert r[i] in multiset(r);
      assert r[i] == x || r[i] in s;
    }
  }

  /** `std::sort` by level: an ascending permutation of `s`. */
  function SortAscending(s: seq<Player>): (r: seq<Player>)
    ensures Sorted(r)
    ensures multiset(r) == multiset(s)
    ensures |r| == |s|
  {
    if s == [] then
      []
    else
      assert s == [s[0]] + s[1..];
      Insert(s[0], SortAscending(s[1..]))
  }
}
