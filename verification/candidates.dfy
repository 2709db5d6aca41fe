/**
 * `buildNewCandidates` (Apriori/src/Apriori.java:151-187): merge every pair
 * i < j of the size-(k-1) frequent itemsets, tally how many pairs produce each
 * merged list, and keep those produced by at least k pairs (at least one pair
 * when k = 2). The tally is a hash map; its iteration order only affects the
 * order of the returned list.
 */
module Candidates {
  import opened Collections
  import opened Itemsets
  import opened Merge

  /** Successful merges of `L[i]` with `L[q]`, q from `j` upward: the inner loop, lines 159-174. */
  function RowMerges(L: seq<seq<int>>, i: nat, j: nat): (r: seq<seq<int>>)
    requires i < |L| && j <= |L|
    ensures |r| <= |L| - j
    ensures forall c :: c in r ==> exists q :: j <= q < |L| && Yields(L, i, q, c)
    decreases |L| - j
  {
    if j == |L| then []
    else
      var m := MergeTwoSet(L[i], L[j]);
      assert m.Some? ==> Yields(L, i, j, m.value);
      (if m.Some? then [m.value] else []) + RowMerges(L, i, j + 1)
  }

  /** Successful merges of all pairs p < q with p from `i` upward, in loop order: lines 158-175. */
  function PairMerges(L: seq<seq<int>>, i: nat): (r: seq<seq<int>>)
    requires i <= |L|
    ensures forall c :: c in r ==> exists p, q :: i <= p < q < |L| && Yields(L, p, q, c)
    decreases |L| - i
  {
    if i == |L| then [] else RowMerges(L, i, i + 1) + PairMerges(L, i + 1)
  }

  /** Merging `L[p]` with `L[q]` yields `c`. */
  predicate Yields(L: seq<seq<int>>, p: nat, q: nat, c: seq<int>)
    requires p < |L| && q < |L|
  {
    MergeTwoSet(L[p], L[q]) == Some(c)
  }

  /** The pairs (p, q), i <= p < q, whose merge yields `c`. */
  ghost function PairsFrom(L: seq<seq<int>>, c: seq<int>, i: nat): set<(nat, nat)>
  {
    set p: nat, q: nat | i <= p < q < |L| && Yields(L, p, q, c) :: (p, q)
  }

  /** The number of pairs i < j of `L` whose merge yields `c`. */
  ghost function PairCount(L: seq<seq<int>>, c: seq<int>): nat
  {
    |PairsFrom(L, c, 0)|
  }

  /** The prune threshold of lines 155 and 178: k, lowered to 1 when k = 2. */
  function PruneThreshold(k: int): (t: int)
    ensures k >= 2 ==> 1 <= t && 2 * t <= k * (k - 1)
  {
    if k == 2 then 1
    else
      assert k >= 3 ==> k * (k - 1) >= k * 2;
      k
  }

  /**
   * buildNewCandidates. `L` is `lastCandidates`; the source reads `L[0]`, so it
   * must not be empty.
   */
  function BuildNewCandidates(L: seq<seq<int>>): (r: seq<seq<int>>)
    requires |L| > 0
    ensures Distinct(r)
    ensures forall c :: c in r <==> PairCount(L, c) >= PruneThreshold(|L[0]| + 1)
  {
    var tally := CountAll(PairMerges(L, 0));
    KeptIffEnoughPairs(L);
    KeepAtLeast(tally.order, tally.counts, PruneThreshold(|L[0]| + 1))
  }

  lemma KeptIffEnoughPairs(L: seq<seq<int>>)
    requires |L| > 0
    ensures var tally := CountAll(PairMerges(L, 0));
      forall c :: c in KeepAtLeast(tally.order, tally.counts, PruneThreshold(|L[0]| + 1)) <==>
        PairCount(L, c) >= PruneThreshold(|L[0]| + 1)
  {
    var merges := PairMerges(L, 0);
    var th := PruneThreshold(|L[0]| + 1);
    forall c ensures c in KeepAtLeast(CountAll(merges).order, CountAll(merges).counts, th) <==> PairCount(L, c) >= th {
      PairsCounted(L, c, 0);
      KeptIffCounted(merges, th, c);
    }
  }

  /** With a positive threshold, the counter keeps exactly the elements listed at least that often. */
  lemma KeptIffCounted<T>(xs: seq<T>, th: int, c: T)
    requires th >= 1
    ensures var tally := CountAll(xs);
      c in KeepAtLeast(tally.order, tally.counts, th) <==> multiset(xs)[c] >= th
  {
    var tally := CountAll(xs);
    var r := KeepAtLeast(tally.order, tally.counts, th);
    if c in r {
      var i :| 0 <= i < |r| && r[i] == c;
      var k :| 0 <= k < |tally.order| && tally.order[k] == c;
    }
    if multiset(xs)[c] >= th {
      assert c in multiset(xs);
      var i :| 0 <= i < |xs| && xs[i] == c;
      var k :| 0 <= k < |tally.order| && tally.order[k] == c;
    }
  }

  // ---------------------------------------------------------------------------
  // The tally counts pairs

  /** The pairs (i, q), q from `j` upward, whose merge yields `c`. */
  ghost function RowFrom(L: seq<seq<int>>, c: seq<int>, i: nat, j: nat): set<(nat, nat)>
    requires i < |L|
  {
    set q: nat | j <= q < |L| && Yields(L, i, q, c) :: (i, q)
  }

  lemma RowSplit(L: seq<seq<int>>, c: seq<int>, i: nat, j: nat)
    requires i < |L| && j < |L|
    ensures RowFrom(L, c, i, j) == (if Yields(L, i, j, c) then {(i, j)} else {}) + RowFrom(L, c, i, j + 1)
    ensures (i, j) !in RowFrom(L, c, i, j + 1)
  {
    var row, rest := RowFrom(L, c, i, j), RowFrom(L, c, i, j + 1);
    var here: set<(nat, nat)> := if Yields(L, i, j, c) then {(i, j)} else {};
    forall x | x in row ensures x in here + rest {
      var q: nat :| j <= q < |L| && Yields(L, i, q, c) && x == (i, q);
    }
  }

  /** Counting the row from `j`: the pair (i, j) when it yields `c`, then the row from j + 1. */
  lemma RowFromCard(L: seq<seq<int>>, c: seq<int>, i: nat, j: nat)
    requires i < |L| && j < |L|
    ensures |RowFrom(L, c, i, j)| == (if Yields(L, i, j, c) then 1 else 0) + |RowFrom(L, c, i, j + 1)|
  {
    RowSplit(L, c, i, j);
  }

  lemma {:induction false} RowCounted(L: seq<seq<int>>, c: seq<int>, i: nat, j: nat)
    requires i < |L| && j <= |L|
    ensures multiset(RowMerges(L, i, j))[c] == |RowFrom(L, c, i, j)|
    decreases |L| - j
  {
    if j < |L| {
      RowCounted(L, c, i, j + 1);
      RowCountStep(L, c, i, j);
    } else {
      assert RowFrom(L, c, i, j) == {};
    }
  }

  /** The count from j + 1 on, extended by the pair (i, j). */
  lemma RowCountStep(L: seq<seq<int>>, c: seq<int>, i: nat, j: nat)
    requires i < |L| && j < |L|
    requires multiset(RowMerges(L, i, j + 1))[c] == |RowFrom(L, c, i, j + 1)|
    ensures multiset(RowMerges(L, i, j))[c] == |RowFrom(L, c, i, j)|
  {
    RowFromCard(L, c, i, j);
    RowMergesStep(L, c, i, j);
  }

  /** Pairing row `i` with row `j` adds one merge yielding `c` exactly when that pair yields it. */
  lemma RowMergesStep(L: seq<seq<int>>, c: seq<int>, i: nat, j: nat)
    requires i < |L| && j < |L|
    ensures multiset(RowMerges(L, i, j))[c] ==
      (if Yields(L, i, j, c) then 1 else 0) + multiset(RowMerges(L, i, j + 1))[c]
  {
    var m := MergeTwoSet(L[i], L[j]);
    var here := if m.Some? then [m.value] else [];
    assert RowMerges(L, i, j) == here + RowMerges(L, i, j + 1);
    assert multiset(here)[c] == if Yields(L, i, j, c) then 1 else 0;
  }

  lemma PairsSplit(L: seq<seq<int>>, c: seq<int>, i: nat)
    requires i < |L|
    ensures PairsFrom(L, c, i) == RowFrom(L, c, i, i + 1) + PairsFrom(L, c, i + 1)
    ensures RowFrom(L, c, i, i + 1) * PairsFrom(L, c, i + 1) == {}
  {
    var all, row, rest := PairsFrom(L, c, i), RowFrom(L, c, i, i + 1), PairsFrom(L, c, i + 1);
    forall x | x in all ensures x in row + rest {
      var p: nat, q: nat :| i <= p < q < |L| && Yields(L, p, q, c) && x == (p, q);
      if p == i {
        assert x in row;
      } else {
        assert x in rest;
      }
    }
    forall x | x in row ensures x in all && x !in rest {
      var q: nat :| i + 1 <= q < |L| && Yields(L, i, q, c) && x == (i, q);
    }
    forall x | x in rest ensures x in all {
      var p: nat, q: nat :| i + 1 <= p < q < |L| && Yields(L, p, q, c) && x == (p, q);
    }
  }

  lemma {:induction false} PairsCounted(L: seq<seq<int>>, c: seq<int>, i: nat)
    requires i <= |L|
    ensures multiset(PairMerges(L, i))[c] == |PairsFrom(L, c, i)|
    decreases |L| - i
  {
    if i < |L| {
      PairsCounted(L, c, i + 1);
      RowCounted(L, c, i, i + 1);
      PairsSplit(L, c, i);
      assert PairMerges(L, i) == RowMerges(L, i, i + 1) + PairMerges(L, i + 1);
    } else {
      assert PairsFrom(L, c, i) == {};
    }
  }

  /** Each merged list is tallied once per pair that produces it. */
  lemma MergesCounted(L: seq<seq<int>>, i: nat)
    requires i <= |L|
    ensures forall c :: multiset(PairMerges(L, i))[c] == |PairsFrom(L, c, i)|
  {
    forall c ensures multiset(PairMerges(L, i))[c] == |PairsFrom(L, c, i)| {
      PairsCounted(L, c, i);
    }
  }

  /** From a duplicate-free list of canonical (k-1)-sets come only canonical k-sets. */
  lemma CandidateShape(L: seq<seq<int>>, c: seq<int>)
    requires |L| > 0 && Distinct(L)
    requires forall i :: 0 <= i < |L| ==> Increasing(L[i]) && |L[i]| == |L[0]|
    requires c in BuildNewCandidates(L)
    ensures Increasing(c) && |c| == |L[0]| + 1
  {
    assert |PairsFrom(L, c, 0)| >= 1;
    var x :| x in PairsFrom(L, c, 0);
    var p: nat, q: nat :| p < q < |L| && Yields(L, p, q, c) && x == (p, q);
    MergeSize(L[p], L[q]);
  }

  // ---------------------------------------------------------------------------
  // Completeness: a k-set all of whose (k-1)-subsets are listed is a candidate

  /**
   * Candidate completeness: when `L` lists every (k-1)-subset of a canonical
   * k-set `s`, then `s` survives the prune. Each of the C(k,2) pairs of those
   * subsets merges to `s`, and C(k,2) >= k for k >= 3.
   */
  lemma CandidateCompleteness(L: seq<seq<int>>, s: seq<int>)
    requires Distinct(L) && |L| > 0 && |L[0]| + 1 == |s|
    requires |s| >= 2 && Increasing(s)
    requires forall p :: 0 <= p < |s| ==> Without(s, p) in L
    ensures s in BuildNewCandidates(L)
  {
    EnoughPairs(L, s);
  }

  /** The position in `L` of the subset of `s` that leaves out position `p`. */
  ghost function Slot(L: seq<seq<int>>, s: seq<int>, p: nat): nat
  {
    if p < |s| then IndexOf(L, Without(s, p)) else |L|
  }

  /** The pair of positions in `L`, in ascending order, of the subsets leaving out `pq.0` and `pq.1`. */
  ghost function SlotPair(L: seq<seq<int>>, s: seq<int>, pq: (nat, nat)): (nat, nat)
  {
    var a, b := Slot(L, s, pq.0), Slot(L, s, pq.1);
    if a < b then (a, b) else (b, a)
  }

  lemma EnoughPairs(L: seq<seq<int>>, s: seq<int>)
    requires Distinct(L)
    requires |s| >= 2 && Increasing(s)
    requires forall p :: 0 <= p < |s| ==> Without(s, p) in L
    ensures PairCount(L, s) >= PruneThreshold(|s|)
  {
    var k := |s|;
    PairsAtLeastPositionPairs(L, s);
    PositionPairsCard(k);
  }

  /** Every pair p < q of left-out positions accounts for its own merging pair of `L`. */
  lemma PairsAtLeastPositionPairs(L: seq<seq<int>>, s: seq<int>)
    requires Distinct(L) && Increasing(s)
    requires forall p :: 0 <= p < |s| ==> Without(s, p) in L
    ensures |PairsFrom(L, s, 0)| >= |PositionPairs(|s|)|
  {
    var image := SlotImage(L, s);
    SlotImageCard(L, s);
    forall x | x in image ensures x in PairsFrom(L, s, 0) {
      var pq :| pq in PositionPairs(|s|) && x == SlotPair(L, s, pq);
      PositionPairFacts(|s|, pq);
      SlotYields(L, s, pq.0, pq.1);
    }
    SubsetCard(image, PairsFrom(L, s, 0));
  }

  ghost function SlotImage(L: seq<seq<int>>, s: seq<int>): set<(nat, nat)>
  {
    set pq | pq in PositionPairs(|s|) :: SlotPair(L, s, pq)
  }

  lemma SlotImageCard(L: seq<seq<int>>, s: seq<int>)
    requires Distinct(L) && Increasing(s)
    requires forall p :: 0 <= p < |s| ==> Without(s, p) in L
    ensures |SlotImage(L, s)| == |PositionPairs(|s|)|
  {
    SlotsInjective(L, s);
    SlotPairsCard(L, s, PositionPairs(|s|));
  }

  /** `SlotPair` maps a set on which it is injective onto an image of the same size. */
  lemma {:induction false} SlotPairsCard(L: seq<seq<int>>, s: seq<int>, xs: set<(nat, nat)>)
    requires forall x, y :: x in xs && y in xs && SlotPair(L, s, x) == SlotPair(L, s, y) ==> x == y
    ensures |set x | x in xs :: SlotPair(L, s, x)| == |xs|
    decreases |xs|
  {
    if xs != {} {
      var x :| x in xs;
      var rest := xs - {x};
      SlotPairsCard(L, s, rest);
      assert (set y | y in xs :: SlotPair(L, s, y)) == (set y | y in rest :: SlotPair(L, s, y)) + {SlotPair(L, s, x)};
      assert SlotPair(L, s, x) !in (set y | y in rest :: SlotPair(L, s, y));
    } else {
      assert (set y | y in xs :: SlotPair(L, s, y)) == {};
    }
  }

  lemma SlotFacts(L: seq<seq<int>>, s: seq<int>, p: nat)
    requires p < |s|
    requires forall p :: 0 <= p < |s| ==> Without(s, p) in L
    ensures Slot(L, s, p) < |L| && L[Slot(L, s, p)] == Without(s, p)
  {
    assert Without(s, p) in L;
  }

  /** Different left-out positions sit at different places of a duplicate-free `L`. */
  lemma SlotsInjective(L: seq<seq<int>>, s: seq<int>)
    requires Distinct(L) && Increasing(s)
    requires forall p :: 0 <= p < |s| ==> Without(s, p) in L
    ensures forall x, y :: x in PositionPairs(|s|) && y in PositionPairs(|s|) && SlotPair(L, s, x) == SlotPair(L, s, y) ==> x == y
  {
    forall p: nat, q: nat | p < |s| && q < |s| && p != q ensures Slot(L, s, p) != Slot(L, s, q) {
      SlotFacts(L, s, p);
      SlotFacts(L, s, q);
      WithoutDiffer(s, p, q);
    }
    forall x, y | x in PositionPairs(|s|) && y in PositionPairs(|s|) && SlotPair(L, s, x) == SlotPair(L, s, y)
      ensures x == y
    {
      PositionPairFacts(|s|, x);
      PositionPairFacts(|s|, y);
    }
  }

  lemma PositionPairFacts(k: nat, pq: (nat, nat))
    requires pq in PositionPairs(k)
    ensures pq.0 < pq.1 < k
  {
  }

  /** The subsets leaving out `p` and `q` merge to `s`, in either order. */
  lemma SlotYields(L: seq<seq<int>>, s: seq<int>, p: nat, q: nat)
    requires Increasing(s) && p < |s| && q < |s| && p != q
    requires forall p :: 0 <= p < |s| ==> Without(s, p) in L
    ensures SlotPair(L, s, (p, q)) in PairsFrom(L, s, 0)
  {
    SlotFacts(L, s, p);
    SlotFacts(L, s, q);
    MergeOfWithouts(s, p, q);
    MergeOfWithouts(s, q, p);
    var a, b := Slot(L, s, p), Slot(L, s, q);
    assert a != b by {
      WithoutDiffer(s, p, q);
    }
    assert Yields(L, a, b, s) && Yields(L, b, a, s);
  }

  /** Different positions removed give different subsets. */
  lemma WithoutDiffer(s: seq<int>, p: nat, q: nat)
    requires Increasing(s) && p < |s| && q < |s| && p != q
    ensures Without(s, p) != Without(s, q)
  {
    WithoutItems(s, p);
    WithoutItems(s, q);
    assert s[p] in Without(s, q) && s[p] !in Without(s, p);
  }

  lemma WithoutsCover(s: seq<int>, p: nat, q: nat)
    requires Increasing(s) && p < |s| && q < |s| && p != q
    ensures (set x | x in Without(s, p)) + (set x | x in Without(s, q)) == set x | x in s
  {
    WithoutItems(s, p);
    WithoutItems(s, q);
  }

  /** Two different (k-1)-subsets of a canonical k-set merge to the set itself. */
  lemma MergeOfWithouts(s: seq<int>, p: nat, q: nat)
    requires Increasing(s) && p < |s| && q < |s| && p != q
    ensures MergeTwoSet(Without(s, p), Without(s, q)) == Some(s)
  {
    var a, b := Without(s, p), Without(s, q);
    WithoutContained(s, p);
    WithoutContained(s, q);
    WithoutsCover(s, p, q);
    IncreasingCard(s);
    MergeOneApart(a, b);
    var c := MergeTwoSet(a, b).value;
    forall x ensures x in c <==> x in s {
      assert x in s <==> x in (set y | y in a) + (set y | y in b);
    }
    IncreasingUnique(c, s);
  }

  /** The pairs p < q of positions below k. */
  ghost function PositionPairs(k: nat): set<(nat, nat)>
  {
    set p: nat, q: nat | p < q < k :: (p, q)
  }

  /** The pairs (p, q) with p below `m`. */
  ghost function Column(m: nat, q: nat): set<(nat, nat)>
  {
    set p: nat | p < m :: (p, q)
  }

  /** There are C(k,2) of them. */
  lemma {:induction false} PositionPairsCard(k: nat)
    ensures 2 * |PositionPairs(k)| == k * (k - 1)
  {
    if k > 0 {
      PositionPairsCard(k - 1);
      ColumnCard(k - 1, k - 1);
      PositionPairsSplit(k);
      assert k * (k - 1) == (k - 1) * (k - 2) + 2 * (k - 1);
    } else {
      assert PositionPairs(k) == {};
    }
  }

  /** The pairs below k: those below k - 1, and the new column ending at k - 1. */
  lemma PositionPairsSplit(k: nat)
    requires k > 0
    ensures |PositionPairs(k)| == |PositionPairs(k - 1)| + |Column(k - 1, k - 1)|
  {
    var col := Column(k - 1, k - 1);
    forall x | x in PositionPairs(k) ensures x in PositionPairs(k - 1) + col {
      var p: nat, q: nat :| p < q < k && x == (p, q);
    }
    forall x | x in PositionPairs(k - 1) + col ensures x in PositionPairs(k) {
      if x in col {
        var p: nat :| p < k - 1 && x == (p, k - 1);
      } else {
        var p: nat, q: nat :| p < q < k - 1 && x == (p, q);
      }
    }
    assert PositionPairs(k) == PositionPairs(k - 1) + col;
    forall x | x in PositionPairs(k - 1) ensures x !in col {
      var p: nat, q: nat :| p < q < k - 1 && x == (p, q);
    }
    assert PositionPairs(k - 1) * col == {};
  }

  lemma {:induction false} ColumnCard(m: nat, q: nat)
    ensures |Column(m, q)| == m
  {
    if m > 0 {
      ColumnCard(m - 1, q);
      assert Column(m, q) == Column(m - 1, q) + {(m - 1, q)};
    } else {
      assert Column(m, q) == {};
    }
  }
}
