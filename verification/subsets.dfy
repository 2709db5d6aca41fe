/**
 * `combinationUtil` and `subsetOfSizeK` (Apriori/src/Apriori.java:189-208): the
 * size-k subsets of a transaction, enumerated by a recursion that first
 * includes `data[index]` in the partial subset `temp` and then excludes it.
 */
module Subsets {
  import opened Collections
  import opened Itemsets

  /**
   * The lists `combinationUtil(data, k, temp, index, res)` appends to `res`,
   * in the order it appends them.
   */
  function Combinations(data: seq<int>, k: nat, temp: seq<int>, index: nat): (r: seq<seq<int>>)
    ensures forall i :: 0 <= i < |r| ==> |r[i]| == k && temp <= r[i]
    decreases |data| - index
  {
    if |temp| == k then [temp]
    else if index >= |data| then []
    else Combinations(data, k, temp + [data[index]], index + 1) + Combinations(data, k, temp, index + 1)
  }

  /** subsetOfSizeK: the recursion started from an empty partial subset at index 0. */
  function SubsetsOfSize(data: seq<int>, k: nat): (r: seq<seq<int>>)
    ensures forall i :: 0 <= i < |r| ==> |r[i]| == k
    ensures |r| == Binomial(|data|, k)
  {
    CombinationsCount(data, k, [], 0);
    Combinations(data, k, [], 0)
  }

  /** The binomial coefficient C(n, r), by Pascal's rule. */
  function Binomial(n: nat, r: nat): nat
  {
    if r == 0 then 1
    else if n == 0 then 0
    else Binomial(n - 1, r - 1) + Binomial(n - 1, r)
  }

  /**
   * Lexicographic order on item lists: the first differing item decides, and a
   * proper prefix comes first.
   */
  predicate LexLess(a: seq<int>, b: seq<int>)
  {
    if a == [] then b != []
    else b != [] && (a[0] < b[0] || (a[0] == b[0] && LexLess(a[1..], b[1..])))
  }

  /** Each list of `s` is lexicographically below every later one. */
  predicate LexSorted(s: seq<seq<int>>)
  {
    forall i, j :: 0 <= i < j < |s| ==> LexLess(s[i], s[j])
  }

  // ---------------------------------------------------------------------------
  // Which lists come out

  /**
   * The recursion from partial subset `temp` at `index` yields exactly the
   * size-k lists that extend `temp` by a subsequence of `data[index..]`.
   */
  lemma {:induction false} CombinationsMembers(data: seq<int>, k: nat, temp: seq<int>, index: nat, c: seq<int>)
    requires |temp| <= k && index <= |data|
    ensures c in Combinations(data, k, temp, index) <==>
              |c| == k && temp <= c && IsSubsequence(c[|temp|..], data[index..])
    decreases |data| - index
  {
    if |temp| == k {
      if |c| == k && temp <= c {
        assert c == temp;
      }
    } else if index == |data| {
      assert data[index..] == [];
    } else {
      var d := data[index];
      CombinationsMembers(data, k, temp + [d], index + 1, c);
      CombinationsMembers(data, k, temp, index + 1, c);
      var t := data[index..];
      assert t[0] == d && t[1..] == data[index + 1..];
      if |c| == k && temp <= c {
        var s := c[|temp|..];
        assert s != [] && s[0] == c[|temp|] && s[1..] == c[|temp| + 1..];
        assert temp + [d] <= c <==> c[|temp|] == d;
      }
    }
  }

  /** subsetOfSizeK yields exactly the order-preserving length-k subsequences of `data`. */
  lemma SubsetsMembers(data: seq<int>, k: nat, c: seq<int>)
    ensures c in SubsetsOfSize(data, k) <==> |c| == k && IsSubsequence(c, data)
  {
    if k <= |data| {
      CombinationsMembers(data, k, [], 0, c);
      assert c[0..] == c && data[0..] == data;
    } else {
      SubsetsTooLarge(data, k);
      if IsSubsequence(c, data) {
        SubsequenceNotLonger(c, data);
      }
    }
  }

  /**
   * In a canonical transaction, the k-subsets produced are exactly the
   * canonical k-itemsets the transaction contains.
   */
  lemma SubsetsOfIncreasing(data: seq<int>, k: nat, c: seq<int>)
    requires Increasing(data)
    ensures c in SubsetsOfSize(data, k) <==> |c| == k && Increasing(c) && Contains(data, c)
  {
    SubsetsMembers(data, k, c);
    SubsequenceOfIncreasing(c, data);
  }

  lemma {:induction false} SubsequenceNotLonger(s: seq<int>, t: seq<int>)
    requires IsSubsequence(s, t)
    ensures |s| <= |t|
    decreases |t|
  {
    if s != [] {
      if s[0] == t[0] && IsSubsequence(s[1..], t[1..]) {
        SubsequenceNotLonger(s[1..], t[1..]);
      } else {
        SubsequenceNotLonger(s, t[1..]);
      }
    }
  }

  // ---------------------------------------------------------------------------
  // How many

  /** The recursion yields C(n - index, k - |temp|) lists. */
  lemma {:induction false} CombinationsCount(data: seq<int>, k: nat, temp: seq<int>, index: nat)
    requires |temp| <= k && index <= |data|
    ensures |Combinations(data, k, temp, index)| == Binomial(|data| - index, k - |temp|)
    decreases |data| - index
  {
    if |temp| < k && index < |data| {
      var with, without := Combinations(data, k, temp + [data[index]], index + 1), Combinations(data, k, temp, index + 1);
      assert Combinations(data, k, temp, index) == with + without;
      CombinationsCount(data, k, temp + [data[index]], index + 1);
      CombinationsCount(data, k, temp, index + 1);
      var n, r := |data| - index, k - |temp|;
      assert Binomial(n, r) == Binomial(n - 1, r - 1) + Binomial(n - 1, r);
    }
  }

  /** C(n, r) vanishes when r exceeds n. */
  lemma {:induction false} BinomialZero(n: nat, r: nat)
    requires r > n
    ensures Binomial(n, r) == 0
  {
    if n > 0 {
      BinomialZero(n - 1, r - 1);
      BinomialZero(n - 1, r);
    }
  }

  /** Asking for more items than the transaction holds yields no subsets. */
  lemma SubsetsTooLarge(data: seq<int>, k: nat)
    requires k > |data|
    ensures SubsetsOfSize(data, k) == []
  {
    BinomialZero(|data|, k);
  }

  // ---------------------------------------------------------------------------
  // In which order

  /** Two lists that agree up to a point and then differ upward are in lexicographic order. */
  lemma {:induction false} LexLessAfterPrefix(p: seq<int>, a: seq<int>, b: seq<int>)
    requires a != [] && b != [] && a[0] < b[0]
    ensures LexLess(p + a, p + b)
  {
    if p != [] {
      LexLessAfterPrefix(p[1..], a, b);
      assert (p + a)[1..] == p[1..] + a && (p + b)[1..] == p[1..] + b;
    }
  }

  /**
   * Over a canonical transaction the lists come out in strictly increasing
   * lexicographic order, because every subset including `data[index]` is
   * emitted before every subset excluding it.
   */
  lemma {:induction false} CombinationsSorted(data: seq<int>, k: nat, temp: seq<int>, index: nat)
    requires Increasing(data) && |temp| <= k && index <= |data|
    ensures LexSorted(Combinations(data, k, temp, index))
    decreases |data| - index
  {
    if |temp| < k && index < |data| {
      var d := data[index];
      var inc := Combinations(data, k, temp + [d], index + 1);
      var exc := Combinations(data, k, temp, index + 1);
      CombinationsSorted(data, k, temp + [d], index + 1);
      CombinationsSorted(data, k, temp, index + 1);
      forall x, y | x in inc && y in exc ensures LexLess(x, y) {
        IncludedBeforeExcluded(data, k, temp, index, x, y);
      }
      ConcatSorted(inc, exc);
    }
  }

  lemma IncludedBeforeExcluded(data: seq<int>, k: nat, temp: seq<int>, index: nat, x: seq<int>, y: seq<int>)
    requires Increasing(data) && |temp| < k && index < |data|
    requires x in Combinations(data, k, temp + [data[index]], index + 1)
    requires y in Combinations(data, k, temp, index + 1)
    ensures LexLess(x, y)
  {
    CombinationsMembers(data, k, temp + [data[index]], index + 1, x);
    CombinationsMembers(data, k, temp, index + 1, y);
    var ys := y[|temp|..];
    assert ys[0] in ys;
    SubsequenceElements(ys, data[index + 1..], ys[0]);
    assert data[index] < y[|temp|];
    assert x == temp + x[|temp|..] && y == temp + ys;
    LexLessAfterPrefix(temp, x[|temp|..], ys);
  }

  lemma ConcatSorted(a: seq<seq<int>>, b: seq<seq<int>>)
    requires LexSorted(a) && LexSorted(b)
    requires forall x, y :: x in a && y in b ==> LexLess(x, y)
    ensures LexSorted(a + b)
  {
    var s := a + b;
    forall i, j | 0 <= i < j < |s| ensures LexLess(s[i], s[j]) {
      if j < |a| {
        assert s[i] == a[i] && s[j] == a[j];
      } else if i >= |a| {
        assert s[i] == b[i - |a|] && s[j] == b[j - |a|];
      } else {
        assert s[i] in a && s[j] in b;
      }
    }
  }

  /** No list is lexicographically below itself. */
  lemma {:induction false} LexIrreflexive(a: seq<int>)
    ensures !LexLess(a, a)
  {
    if a != [] {
      LexIrreflexive(a[1..]);
    }
  }

  /** Over a canonical transaction subsetOfSizeK yields each subset once. */
  lemma SubsetsDistinct(data: seq<int>, k: nat)
    requires Increasing(data)
    ensures Distinct(SubsetsOfSize(data, k))
    ensures LexSorted(SubsetsOfSize(data, k))
  {
    var s := SubsetsOfSize(data, k);
    if k <= |data| {
      CombinationsSorted(data, k, [], 0);
    } else {
      SubsetsTooLarge(data, k);
    }
    forall i, j | 0 <= i < j < |s| ensures s[i] != s[j] {
      LexIrreflexive(s[i]);
    }
  }

  /**
   * Over a canonical transaction, a list occurs among its k-subsets once when
   * it is a canonical k-itemset the transaction contains, and otherwise not.
   */
  lemma SubsetMultiplicity(data: seq<int>, k: nat, c: seq<int>)
    requires Increasing(data)
    ensures multiset(SubsetsOfSize(data, k))[c] ==
              if |c| == k && Increasing(c) && Contains(data, c) then 1 else 0
  {
    SubsetsDistinct(data, k);
    SubsetsOfIncreasing(data, k, c);
    DistinctMultiplicity(SubsetsOfSize(data, k), c);
  }
}
