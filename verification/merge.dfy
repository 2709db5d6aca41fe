/**
 * `mergeTwoSet` (Apriori/src/Apriori.java:105-142): a two-pointer merge of two
 * sorted itemsets that stops as soon as the merged list holds |first|+1 items.
 *
 * The result is accepted (non-null) when either input has been read to its end,
 * not only when both have. So two disjoint pairs such as [1,2] and [3,4] merge
 * to [1,2,3] (see `AcceptsDisjointPair`); such extra candidates cost validation
 * work but never change the mined result, because validation counts them exactly.
 */
module Merge {
  import opened Collections
  import opened Itemsets

  /** The loop state: read positions in the first and second set, and the list built so far. */
  datatype Cursor = Cursor(i: nat, j: nat, cand: seq<int>)

  /** The loop condition of line 113-114. */
  predicate Running(a: seq<int>, b: seq<int>, cap: nat, st: Cursor)
  {
    (st.i < |a| || st.j < |b|) && |st.cand| < cap
  }

  /** One pass through the loop body, lines 115-133. */
  function Step(a: seq<int>, b: seq<int>, st: Cursor): (r: Cursor)
    requires st.i <= |a| && st.j <= |b| && (st.i < |a| || st.j < |b|)
    ensures r.i <= |a| && r.j <= |b|
    ensures |r.cand| == |st.cand| + 1
    ensures st.i <= r.i && st.j <= r.j && st.i + st.j < r.i + r.j
  {
    if st.i == |a| then Cursor(st.i, st.j + 1, st.cand + [b[st.j]])
    else if st.j == |b| then Cursor(st.i + 1, st.j, st.cand + [a[st.i]])
    else if a[st.i] == b[st.j] then Cursor(st.i + 1, st.j + 1, st.cand + [a[st.i]])
    else if a[st.i] < b[st.j] then Cursor(st.i + 1, st.j, st.cand + [a[st.i]])
    else Cursor(st.i, st.j + 1, st.cand + [b[st.j]])
  }

  /** The whole loop of lines 113-134, run from state `st` with size cap `cap`. */
  function MergeLoop(a: seq<int>, b: seq<int>, cap: nat, st: Cursor): (r: Cursor)
    requires st.i <= |a| && st.j <= |b|
    ensures r.i <= |a| && r.j <= |b|
    ensures !Running(a, b, cap, r)
    ensures |st.cand| <= cap ==> |r.cand| <= cap
    decreases |a| - st.i + |b| - st.j
  {
    if Running(a, b, cap, st) then MergeLoop(a, b, cap, Step(a, b, st)) else st
  }

  /** The list built holds exactly the items read so far from either set. */
  ghost predicate Gathered(a: seq<int>, b: seq<int>, st: Cursor)
    requires st.i <= |a| && st.j <= |b|
  {
    forall x :: x in st.cand <==> x in a[..st.i] || x in b[..st.j]
  }

  /** The list built is sorted and below every item still unread. */
  ghost predicate Ordered(a: seq<int>, b: seq<int>, st: Cursor)
    requires st.i <= |a| && st.j <= |b|
  {
    && Increasing(st.cand)
    && (forall x, p :: x in st.cand && st.i <= p < |a| ==> x < a[p])
    && (forall x, p :: x in st.cand && st.j <= p < |b| ==> x < b[p])
  }

  /** The loop state in which `mergeTwoSet` leaves its loop. */
  function Exit(a: seq<int>, b: seq<int>): (st: Cursor)
    ensures st.i <= |a| && st.j <= |b|
  {
    MergeLoop(a, b, |a| + 1, Cursor(0, 0, []))
  }

  /**
   * mergeTwoSet: `Some(merged)` for a non-null return, `None` for null.
   */
  function MergeTwoSet(a: seq<int>, b: seq<int>): (r: Option<seq<int>>)
    ensures r.Some? ==> |r.value| <= |a| + 1
    ensures r.Some? ==> Contains(r.value, a) || Contains(r.value, b)
    ensures r.Some? ==> Contains(a + b, r.value)
    ensures r.Some? && Increasing(a) && Increasing(b) ==> Increasing(r.value)
    ensures r.None? && Increasing(a) && Increasing(b) ==>
              |(set x | x in a) + (set x | x in b)| > |a| + 1
  {
    var st := Exit(a, b);
    ExitGathered(a, b);
    ExitOrdered(a, b);
    if st.i == |a| || st.j == |b| then Some(st.cand) else None
  }

  lemma ExitGathered(a: seq<int>, b: seq<int>)
    ensures Gathered(a, b, Exit(a, b))
    ensures |Exit(a, b).cand| <= |a| + 1
    ensures Exit(a, b).i == |a| ==> Contains(Exit(a, b).cand, a)
    ensures Exit(a, b).j == |b| ==> Contains(Exit(a, b).cand, b)
    ensures Contains(a + b, Exit(a, b).cand)
  {
    var st := Exit(a, b);
    LoopGathered(a, b, |a| + 1, Cursor(0, 0, []));
    assert st.i == |a| ==> a[..st.i] == a;
    assert st.j == |b| ==> b[..st.j] == b;
    forall x | x in st.cand ensures x in a + b {
      if x in a[..st.i] {
        assert x in a;
      } else {
        assert x in b;
      }
    }
  }

  lemma ExitOrdered(a: seq<int>, b: seq<int>)
    ensures Increasing(a) && Increasing(b) ==> Ordered(a, b, Exit(a, b))
    ensures Increasing(a) && Increasing(b) && Exit(a, b).i < |a| && Exit(a, b).j < |b| ==>
              |(set x | x in a) + (set x | x in b)| > |a| + 1
  {
    var st := Exit(a, b);
    if Increasing(a) && Increasing(b) {
      LoopOrdered(a, b, |a| + 1, Cursor(0, 0, []));
      ExitGathered(a, b);
      if st.i < |a| && st.j < |b| {
        TooManyItems(a, b, st);
      }
    }
  }

  // ---------------------------------------------------------------------------
  // Loop invariants

  lemma StepGathered(a: seq<int>, b: seq<int>, st: Cursor)
    requires st.i <= |a| && st.j <= |b| && (st.i < |a| || st.j < |b|)
    requires Gathered(a, b, st)
    ensures Gathered(a, b, Step(a, b, st))
  {
    var r := Step(a, b, st);
    assert st.i < |a| ==> a[..st.i + 1] == a[..st.i] + [a[st.i]];
    assert st.j < |b| ==> b[..st.j + 1] == b[..st.j] + [b[st.j]];
    forall x
      ensures x in r.cand <==> x in a[..r.i] || x in b[..r.j]
    {
    }
  }

  lemma StepOrdered(a: seq<int>, b: seq<int>, st: Cursor)
    requires Increasing(a) && Increasing(b)
    requires st.i <= |a| && st.j <= |b| && (st.i < |a| || st.j < |b|)
    requires Ordered(a, b, st)
    ensures Ordered(a, b, Step(a, b, st))
  {
    var r := Step(a, b, st);
    var e := r.cand[|r.cand| - 1];
    assert r.cand == st.cand + [e];
    assert forall p :: r.i <= p < |a| ==> e < a[p];
    assert forall p :: r.j <= p < |b| ==> e < b[p];
    forall i, j | 0 <= i < j < |r.cand|
      ensures r.cand[i] < r.cand[j]
    {
      assert r.cand[i] == st.cand[i] && st.cand[i] in st.cand;
    }
  }

  lemma {:induction false} LoopGathered(a: seq<int>, b: seq<int>, cap: nat, st: Cursor)
    requires st.i <= |a| && st.j <= |b|
    requires Gathered(a, b, st)
    ensures Gathered(a, b, MergeLoop(a, b, cap, st))
    decreases |a| - st.i + |b| - st.j
  {
    if Running(a, b, cap, st) {
      StepGathered(a, b, st);
      LoopGathered(a, b, cap, Step(a, b, st));
    }
  }

  lemma {:induction false} LoopOrdered(a: seq<int>, b: seq<int>, cap: nat, st: Cursor)
    requires Increasing(a) && Increasing(b)
    requires st.i <= |a| && st.j <= |b|
    requires Ordered(a, b, st)
    ensures Ordered(a, b, MergeLoop(a, b, cap, st))
    decreases |a| - st.i + |b| - st.j
  {
    if Running(a, b, cap, st) {
      StepOrdered(a, b, st);
      LoopOrdered(a, b, cap, Step(a, b, st));
    }
  }

  /** A loop that stops with both sets unread has met more items than the cap. */
  lemma TooManyItems(a: seq<int>, b: seq<int>, st: Cursor)
    requires st.i < |a| && st.j < |b|
    requires Gathered(a, b, st) && Ordered(a, b, st)
    requires |st.cand| >= |a| + 1
    ensures |(set x | x in a) + (set x | x in b)| > |a| + 1
  {
    var u := (set x | x in a) + (set x | x in b);
    var c := set x | x in st.cand;
    IncreasingCard(st.cand);
    assert c <= u;
    assert a[st.i] in u && a[st.i] !in c;
    SubsetCard(c + {a[st.i]}, u);
  }

  // ---------------------------------------------------------------------------
  // Properties

  /**
   * Two sets of equal size whose union has exactly one item more merge to
   * exactly their sorted union.
   */
  lemma MergeOneApart(a: seq<int>, b: seq<int>)
    requires Increasing(a) && Increasing(b) && |a| == |b|
    requires |(set x | x in a) + (set x | x in b)| == |a| + 1
    ensures MergeTwoSet(a, b).Some?
    ensures Increasing(MergeTwoSet(a, b).value)
    ensures forall x :: x in MergeTwoSet(a, b).value <==> x in a || x in b
  {
    var st := Exit(a, b);
    ExitIsUnion(a, b);
    ExitOrdered(a, b);
    assert MergeTwoSet(a, b) == Some(st.cand);
    forall x ensures x in st.cand <==> x in a || x in b {
      assert x in st.cand <==> x in (set y | y in st.cand);
      assert x in a || x in b <==> x in (set y | y in a) + (set y | y in b);
    }
  }

  /** When the union has exactly |a|+1 items the loop leaves with one set read and holds the union. */
  lemma ExitIsUnion(a: seq<int>, b: seq<int>)
    requires Increasing(a) && Increasing(b) && |a| == |b|
    requires |(set x | x in a) + (set x | x in b)| == |a| + 1
    ensures Exit(a, b).i == |a| || Exit(a, b).j == |b|
    ensures (set x | x in Exit(a, b).cand) == (set x | x in a) + (set x | x in b)
  {
    var st := Exit(a, b);
    ExitOrdered(a, b);
    ExitWithinUnion(a, b);
    if st.i == |a| && st.j == |b| {
      ExitAllRead(a, b);
    } else {
      // the loop stopped on the size cap, so the list built holds |a|+1 items
      IncreasingCard(st.cand);
      SubsetSameCard(set x | x in st.cand, (set x | x in a) + (set x | x in b));
    }
  }

  /** The loop only ever takes items of the two sets. */
  lemma ExitWithinUnion(a: seq<int>, b: seq<int>)
    ensures (set x | x in Exit(a, b).cand) <= (set x | x in a) + (set x | x in b)
  {
    ExitGathered(a, b);
    forall x | x in Exit(a, b).cand ensures x in a || x in b {
      assert x in a + b;
    }
  }

  /** A loop that has read both sets holds every item of both. */
  lemma ExitAllRead(a: seq<int>, b: seq<int>)
    requires Exit(a, b).i == |a| && Exit(a, b).j == |b|
    ensures (set x | x in Exit(a, b).cand) == (set x | x in a) + (set x | x in b)
  {
    var st := Exit(a, b);
    ExitGathered(a, b);
    assert a[..st.i] == a && b[..st.j] == b;
    var c, u := set y | y in st.cand, (set y | y in a) + (set y | y in b);
    forall x ensures x in c <==> x in u {
      assert x in st.cand <==> x in a[..st.i] || x in b[..st.j];
    }
  }

  /**
   * Two different canonical sets of equal size merge, when they merge at all,
   * to a list one item longer.
   */
  lemma MergeSize(a: seq<int>, b: seq<int>)
    requires Increasing(a) && Increasing(b) && |a| == |b| && a != b
    requires MergeTwoSet(a, b).Some?
    ensures |MergeTwoSet(a, b).value| == |a| + 1
  {
    var st := Exit(a, b);
    ExitGathered(a, b);
    ExitOrdered(a, b);
    if |st.cand| < |a| + 1 {
      assert st.i == |a| && st.j == |b|;
      assert a[..st.i] == a && b[..st.j] == b;
      var u := (set x | x in a) + (set x | x in b);
      assert (set x | x in st.cand) == u;
      IncreasingCard(st.cand);
      IncreasingCard(a);
      IncreasingCard(b);
      DifferentSetsGrow(a, b);
    }
  }

  /** The union of two different canonical sets of equal size is larger than either. */
  lemma DifferentSetsGrow(a: seq<int>, b: seq<int>)
    requires Increasing(a) && Increasing(b) && |a| == |b| && a != b
    ensures |(set x | x in a) + (set x | x in b)| > |a|
  {
    var sa, sb := set x | x in a, set x | x in b;
    IncreasingCard(a);
    IncreasingCard(b);
    SubsetCard(sa, sa + sb);
    if |sa + sb| == |a| {
      SubsetSameCard(sa, sa + sb);
      SubsetCard(sb, sa);
      SubsetSameCard(sb, sa);
      forall x ensures x in a <==> x in b {
        assert x in a <==> x in sa;
        assert x in b <==> x in sb;
      }
      IncreasingUnique(a, b);
    }
  }

  /** The merge as written accepts two disjoint sets once the first is read to its end. */
  lemma AcceptsDisjointPair()
    ensures MergeTwoSet([1, 2], [3, 4]) == Some([1, 2, 3])
  {
    var a, b := [1, 2], [3, 4];
    var s0 := Cursor(0, 0, []);
    var s1 := Step(a, b, s0);
    assert s1 == Cursor(1, 0, [1]);
    var s2 := Step(a, b, s1);
    assert s2 == Cursor(2, 0, [1, 2]);
    var s3 := Step(a, b, s2);
    assert s3 == Cursor(2, 1, [1, 2, 3]);
    assert MergeLoop(a, b, 3, s3) == s3;
    assert MergeLoop(a, b, 3, s0) == s3;
  }
}
