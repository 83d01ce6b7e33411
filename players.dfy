/**
 * Records being ranked, the result every ranking operation returns, and the
 * reference definitions the rankers are proved against: ascending order by
 * level, "top k of a population" and "cutoff level of a population".
 */
module Players {

  /** A scored record. Records compare by `level` only; `name` never affects order. */
  datatype Player = Player(name: string, level: nat)

  /**
   * What every ranking operation returns: the selected records in ascending
   * order and the milestone-to-cutoff map (empty for the offline rankers).
   * The elapsed wall-clock time is not part of this model.
   */
  datatype RankingResult = RankingResult(top: seq<Player>, cutoffs: map<nat, nat>)

  function Min(a: nat, b: nat): nat
  {
    if a <= b then a else b
  }

  /** Non-descending by level. */
  predicate Sorted(s: seq<Player>)
  {
    forall i, j :: 0 <= i < j < |s| ==> s[i].level <= s[j].level
  }

  /**
   * `t` is a selection of the `k` highest-level records of `s` (all of `s` when
   * `s` has fewer than `k`): `t` is drawn from `s`, and nothing `s` holds
   * beyond `t` has a higher level than anything in `t`. Ties may be broken either way.
   */
  ghost predicate IsTopK(t: seq<Player>, s: seq<Player>, k: nat)
  {
    |t| == Min(|s|, k) &&
    multiset(t) <= multiset(s) &&
    forall x, y :: x in multiset(s) - multiset(t) && y in t ==> x.level <= y.level
  }

  /** The least level held by a non-empty sequence. */
  function LeastLevel(s: seq<Player>): (v: nat)
    requires |s| > 0
    ensures forall x :: x in s ==> v <= x.level
    ensures exists x :: x in s && x.level == v
  {
    if |s| == 1 then
      s[0].level
    else
      var rest := LeastLevel(s[1..]);
      assert forall x :: x in s ==> x == s[0] || x in s[1..];
      Min(s[0].level, rest)
  }

  /** Number of records of `s` whose level is at least `v`. */
  function CountAtLeast(s: seq<Player>, v: nat): (c: nat)
    ensures c <= |s|
  {
    if s == [] then 0
    else (if s[0].level >= v then 1 else 0) + CountAtLeast(s[1..], v)
  }

  /**
   * `v` is the cutoff level of the `k` best records of `s`: at least `k`
   * records reach `v`, and fewer than `k` are strictly above it.
   */
  ghost predicate IsCutoffOf(v: nat, s: seq<Player>, k: nat)
  {
    CountAtLeast(s, v) >= k && CountAtLeast(s, v + 1) < k
  }

  lemma {:induction false} CountAppend(a: seq<Player>, b: seq<Player>, v: nat)
    ensures CountAtLeast(a + b, v) == CountAtLeast(a, v) + CountAtLeast(b, v)
  {
    if a != [] {
      assert (a + b)[0] == a[0] && (a + b)[1..] == a[1..] + b;
      CountAppend(a[1..], b, v);
    } else {
      assert a + b == b;
    }
  }

  /** The count depends only on which records a sequence holds, not on their order. */
  lemma {:induction false} CountPermutation(a: seq<Player>, b: seq<Player>, v: nat)
    requires multiset(a) == multiset(b)
    ensures CountAtLeast(a, v) == CountAtLeast(b, v)
    decreases |a|
  {
    if a != [] {
      assert a[0] in multiset(b);
      var i :| 0 <= i < |b| && b[i] == a[0];
      var b' := CountRemove(b, i, v);
      var a' := CountRemove(a, 0, v);
      CountPermutation(a', b', v);
    }
  }

  /** Taking the record at `i` out of `b` lowers the count by that record's share. */
  lemma CountRemove(b: seq<Player>, i: nat, v: nat) returns (b': seq<Player>)
    requires i < |b|
    ensures b' == b[..i] + b[i + 1..]
    ensures multiset(b') == multiset(b) - multiset{b[i]}
    ensures CountAtLeast(b, v) == CountAtLeast(b', v) + (if b[i].level >= v then 1 else 0)
  {
    b' := b[..i] + b[i + 1..];
    assert b == b[..i] + [b[i]] + b[i + 1..];
    assert multiset(b) == multiset(b[..i]) + multiset{b[i]} + multiset(b[i + 1..]);
    CountAppend(b[..i] + [b[i]], b[i + 1..], v);
    CountAppend(b[..i], [b[i]], v);
    CountAppend(b[..i], b[i + 1..], v);
  }

  lemma {:induction false} CountAllBelow(s: seq<Player>, v: nat)
    requires forall x :: x in s ==> x.level < v
    ensures CountAtLeast(s, v) == 0
  {
    if s != [] {
      assert s[0] in s;
      assert forall x :: x in s[1..] ==> x in s;
      CountAllBelow(s[1..], v);
    }
  }

  lemma {:induction false} CountAllAtLeast(s: seq<Player>, v: nat)
    requires forall x :: x in s ==> x.level >= v
    ensures CountAtLeast(s, v) == |s|
  {
    if s != [] {
      assert s[0] in s;
      assert forall x :: x in s[1..] ==> x in s;
      CountAllAtLeast(s[1..], v);
    }
  }

  /** Some sequence holds exactly the records of a multiset. */
  lemma SeqOfMultiset(m: multiset<Player>) returns (s: seq<Player>)
    ensures multiset(s) == m
    decreases |m|
  {
    if m == multiset{} {
      s := [];
    } else {
      var x :| x in m;
      var rest := SeqOfMultiset(m - multiset{x});
      s := [x] + rest;
    }
  }

  /**
   * Counting a top-k selection: at every threshold `w`, the selection holds as
   * many records reaching `w` as the population does, up to its size.
   */
  lemma TopKCount(t: seq<Player>, s: seq<Player>, k: nat, w: nat)
    requires IsTopK(t, s, k)
    ensures CountAtLeast(t, w) == Min(|t|, CountAtLeast(s, w))
  {
    var e := SeqOfMultiset(multiset(s) - multiset(t));
    assert multiset(t + e) == multiset(s);
    CountPermutation(t + e, s, w);
    CountAppend(t, e, w);
    if forall y :: y in t ==> y.level >= w {
      CountAllAtLeast(t, w);
    } else {
      var y :| y in t && y.level < w;
      forall x | x in e ensures x.level < w {
        assert x in multiset(s) - multiset(t);
      }
      CountAllBelow(e, w);
    }
  }

  /**
   * The least level of a full top-k selection is the population's cutoff
   * level, whichever tied records the selection happened to keep.
   */
  lemma TopKMinIsCutoff(t: seq<Player>, s: seq<Player>, k: nat)
    requires IsTopK(t, s, k) && |t| == k > 0
    requires forall y :: y in t ==> t[0].level <= y.level
    ensures IsCutoffOf(t[0].level, s, k)
  {
    var v := t[0].level;
    TopKCount(t, s, k, v);
    TopKCount(t, s, k, v + 1);
    CountAllAtLeast(t, v);
    assert t == [t[0]] + t[1..];
    CountAppend([t[0]], t[1..], v + 1);
  }

  /** The cutoff level of a population is unique. */
  lemma {:induction false} CutoffUnique(v: nat, w: nat, s: seq<Player>, k: nat)
    requires IsCutoffOf(v, s, k) && IsCutoffOf(w, s, k)
    ensures v == w
  {
    if v < w {
      CountMonotone(s, v + 1, w);
    } else if w < v {
      CountMonotone(s, w + 1, v);
    }
  }

  lemma {:induction false} CountMonotone(s: seq<Player>, v: nat, w: nat)
    requires v <= w
    ensures CountAtLeast(s, w) <= CountAtLeast(s, v)
  {
    if s != [] {
      CountMonotone(s[1..], v, w);
    }
  }

  /** Multiset of the levels a sequence holds. */
  function Levels(s: seq<Player>): (m: multiset<nat>)
    ensures |m| == |s|
  {
    if s == [] then multiset{} else multiset{s[0].level} + Levels(s[1..])
  }

  lemma {:induction false} LevelMultiplicity(s: seq<Player>, w: nat)
    ensures Levels(s)[w] == CountAtLeast(s, w) - CountAtLeast(s, w + 1)
  {
    if s != [] {
      LevelMultiplicity(s[1..], w);
      CountMonotone(s[1..], w, w + 1);
    }
  }

  /**
   * Any two top-k selections of one population hold the same levels: they
   * can differ only in which of several equal-level records they kept.
   */
  lemma TopKLevelsAgree(t1: seq<Player>, t2: seq<Player>, s: seq<Player>, k: nat)
    requires IsTopK(t1, s, k) && IsTopK(t2, s, k)
    ensures Levels(t1) == Levels(t2)
  {
    forall w: nat ensures Levels(t1)[w] == Levels(t2)[w] {
      LevelMultiplicity(t1, w);
      LevelMultiplicity(t2, w);
      TopKCount(t1, s, k, w);
      TopKCount(t2, s, k, w);
      TopKCount(t1, s, k, w + 1);
      TopKCount(t2, s, k, w + 1);
    }
  }

  /**
   * Splitting a population into a selection and a remainder, with nothing in
   * the remainder above anything selected, selects its top records.
   */
  lemma TopKOfSplit(t: seq<Player>, rest: seq<Player>, s: seq<Player>, k: nat)
    requires multiset(t) + multiset(rest) == multiset(s)
    requires |t| == Min(|s|, k)
    requires forall x, y :: x in rest && y in t ==> x.level <= y.level
    ensures IsTopK(t, s, k)
  {
    assert multiset(s) - multiset(t) == multiset(rest);
  }

  /** Cutting a sequence in two splits its multiset. */
  lemma SplitMultiset(s: seq<Player>, k: nat)
    requires k <= |s|
    ensures multiset(s[..k]) + multiset(s[k..]) == multiset(s)
  {
    assert s == s[..k] + s[k..];
  }

  /** A top-k selection stays one when its records are reordered. */
  lemma TopKPermuted(t: seq<Player>, t': seq<Player>, s: seq<Player>, k: nat)
    requires IsTopK(t, s, k)
    requires multiset(t') == multiset(t)
    ensures IsTopK(t', s, k)
  {
    assert |t'| == |multiset(t')|;
    forall x, y | x in multiset(s) - multiset(t') && y in t' ensures x.level <= y.level {
      assert y in multiset(t');
    }
  }

  /** A population no larger than `k` is its own top-k selection, in any order. */
  lemma TopKOfAll(t: seq<Player>, s: seq<Player>, k: nat)
    requires multiset(t) == multiset(s) && |s| <= k
    ensures IsTopK(t, s, k)
  {
    assert |t| == |multiset(t)|;
  }

  /**
   * A newcomer strictly above the least selected record replaces it: the
   * selection stays the top k of the population grown by the newcomer.
   */
  lemma TopKReplace(t: seq<Player>, t': seq<Player>, s: seq<Player>, p: Player, k: nat)
    requires IsTopK(t, s, k) && |t| == k > 0
    requires forall y :: y in t ==> t[0].level <= y.level
    requires t[0].level < p.level
    requires multiset(t') == multiset(t[0 := p])
    ensures IsTopK(t', s + [p], k)
  {
    var ms := multiset(s + [p]);
    assert multiset(t[0 := p]) == multiset(t) - multiset{t[0]} + multiset{p};
    assert |t'| == |multiset(t')| == |t|;
    assert t[0] in multiset(t);
    assert multiset(t') <= ms;
    assert ms - multiset(t') == (multiset(s) - multiset(t)) + multiset{t[0]};
    forall x, y | x in ms - multiset(t') && y in t' ensures x.level <= y.level {
      assert y in multiset(t');
      assert y == p || y in multiset(t);
    }
  }

  /**
   * A newcomer no higher than the least selected record is discarded: the
   * selection stays the top k of the population grown by the newcomer.
   */
  lemma TopKSkip(t: seq<Player>, s: seq<Player>, p: Player, k: nat)
    requires IsTopK(t, s, k) && |t| == k > 0
    requires forall y :: y in t ==> t[0].level <= y.level
    requires p.level <= t[0].level
    ensures IsTopK(t, s + [p], k)
  {
    var ms := multiset(s + [p]);
    assert ms - multiset(t) == (multiset(s) - multiset(t)) + multiset{p};
  }
}
