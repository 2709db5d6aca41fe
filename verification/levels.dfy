/**
 * The level driver of the Apriori miner: the constructor's counting pass
 * (Apriori/src/Apriori.java:44-96), which yields the frequent 1-itemsets and
 * the level bound `maxSize`, and `generateFIS` (lines 288-302), which builds
 * and validates candidates level by level from k = 2 up to that bound.
 *
 * Two defects of the driver are modelled as written and then corrected:
 * with no frequent item and a bound of at least 2 the first
 * `buildNewCandidates` call reads element 0 of an empty list; and `maxSize`
 * only counts transactions whose length is exactly some l, so frequent sets
 * longer than it are never mined. `Generate` guards the empty level and runs
 * up to the longest transaction, and mines every frequent itemset.
 */
module Levels {
  import opened Collections
  import opened Itemsets
  import opened Candidates
  import opened Validate

  // ---------------------------------------------------------------------------
  // The constructor's counting pass

  /** Every item of lines 0 .. n-1, line after line, as the tokenizer reads them. */
  function ItemsUpTo(db: Database, n: nat): seq<int>
    requires n <= |db|
  {
    if n == 0 then [] else ItemsUpTo(db, n - 1) + db[n - 1]
  }

  /** The length of each of lines 0 .. n-1. */
  function LengthsUpTo(db: Database, n: nat): seq<nat>
    requires n <= |db|
  {
    if n == 0 then [] else LengthsUpTo(db, n - 1) + [|db[n - 1]|]
  }

  /**
   * Item occurrence counts (`atomicFIS`, lines 57-64): exactly the items seen
   * on some line are counted, and over canonical transactions, where an item
   * occurs at most once per line, an item's count is its support.
   */
  function Occurrences(db: Database): (c: Counter<int>)
    ensures forall x :: x in c.counts <==> exists l :: 0 <= l < |db| && x in db[l]
    ensures SortedLines(db) ==> forall x :: x in c.counts ==> c.counts[x] == Support(db, [x])
  {
    OccurrenceFacts(db);
    CountAll(ItemsUpTo(db, |db|))
  }

  lemma OccurrenceFacts(db: Database)
    ensures forall x :: x in ItemsUpTo(db, |db|) <==> exists l :: 0 <= l < |db| && x in db[l]
    ensures SortedLines(db) ==> forall x :: multiset(ItemsUpTo(db, |db|))[x] == Support(db, [x])
  {
    forall x ensures x in ItemsUpTo(db, |db|) <==> exists l :: 0 <= l < |db| && x in db[l] {
      ItemsUpToMember(db, |db|, x);
    }
    if SortedLines(db) {
      forall x ensures multiset(ItemsUpTo(db, |db|))[x] == Support(db, [x]) {
        OccurrencesAreSupport(db, |db|, x);
      }
    }
  }

  /** An item is read by the tokenizer exactly when one of the lines holds it. */
  lemma {:induction false} ItemsUpToMember(db: Database, n: nat, x: int)
    requires n <= |db|
    ensures x in ItemsUpTo(db, n) <==> exists l :: 0 <= l < n && x in db[l]
  {
    if n > 0 {
      ItemsUpToMember(db, n - 1, x);
    }
  }

  /** The one-element lists of `xs`, in order. */
  function Singletons(xs: seq<int>): (r: seq<seq<int>>)
    ensures |r| == |xs|
    ensures forall i :: 0 <= i < |r| ==> r[i] == [xs[i]]
  {
    if xs == [] then [] else [[xs[0]]] + Singletons(xs[1..])
  }

  /**
   * `oneDimensionFIS`, lines 80-90: the one-element lists of the items that
   * occur at least `threshold` times.
   */
  function OneItemSets(db: Database, threshold: int): (r: seq<seq<int>>)
    ensures Distinct(r)
    ensures forall s :: s in r <==>
              |s| == 1 && s[0] in Occurrences(db).counts && Occurrences(db).counts[s[0]] >= threshold
  {
    var atomic := Occurrences(db);
    KeptSingletons(atomic, threshold);
    Singletons(KeepAtLeast(atomic.order, atomic.counts, threshold))
  }

  lemma KeptSingletons(atomic: Counter<int>, threshold: int)
    requires forall x :: x in atomic.order ==> x in atomic.counts
    requires forall x :: x in atomic.counts ==> x in atomic.order
    requires Distinct(atomic.order)
    ensures var r := Singletons(KeepAtLeast(atomic.order, atomic.counts, threshold));
      && Distinct(r)
      && forall s :: s in r <==> |s| == 1 && s[0] in atomic.counts && atomic.counts[s[0]] >= threshold
  {
    var kept := KeepAtLeast(atomic.order, atomic.counts, threshold);
    var r := Singletons(kept);
    forall s ensures s in r <==> |s| == 1 && s[0] in kept {
      SingletonMember(kept, s);
    }
    forall x ensures x in kept <==> x in atomic.counts && atomic.counts[x] >= threshold {
      KeptMember(atomic.order, atomic.counts, threshold, x);
    }
    SingletonsDistinct(kept);
  }

  lemma SingletonMember(xs: seq<int>, s: seq<int>)
    ensures s in Singletons(xs) <==> |s| == 1 && s[0] in xs
  {
    var r := Singletons(xs);
    if s in r {
      var i :| 0 <= i < |r| && r[i] == s;
    }
    if |s| == 1 && s[0] in xs {
      var i :| 0 <= i < |xs| && xs[i] == s[0];
      assert r[i] == s;
    }
  }

  lemma SingletonsDistinct(xs: seq<int>)
    requires Distinct(xs)
    ensures Distinct(Singletons(xs))
  {
    var r := Singletons(xs);
    forall i, j | 0 <= i < j < |r| ensures r[i] != r[j] {
      assert r[i][0] == xs[i] && r[j][0] == xs[j];
    }
  }

  /** The entries put into `mItemSet` at line 88: each frequent item with its occurrence count. */
  function OneItemCounts(db: Database, threshold: int): (t: Table)
    ensures forall s :: s in t <==> s in OneItemSets(db, threshold)
    ensures forall s :: s in t ==> t[s] == Occurrences(db).counts[s[0]]
  {
    map s | s in OneItemSets(db, threshold) :: Occurrences(db).counts[s[0]]
  }

  /** Lines 92-96: the largest key of `order` whose count reaches the threshold, starting from `acc`. */
  function LargestFrequent(order: seq<nat>, counts: map<nat, nat>, threshold: int, acc: nat): (m: nat)
    requires forall x :: x in order ==> x in counts
    ensures acc <= m
    ensures m == acc || (m in order && counts[m] >= threshold)
    ensures forall i :: 0 <= i < |order| && counts[order[i]] >= threshold ==> order[i] <= m
  {
    if order == [] then acc
    else
      var next := if counts[order[0]] >= threshold && order[0] > acc then order[0] else acc;
      LargestFrequent(order[1..], counts, threshold, next)
  }

  /**
   * `maxSize`: the largest transaction length l such that at least `threshold`
   * transactions have length exactly l, or 0 when there is none.
   */
  function MaxSize(db: Database, threshold: int): (m: nat)
    ensures m == 0 || exists l :: 0 <= l < |db| && |db[l]| == m && LinesOfLength(db, m, |db|) >= threshold
    ensures forall l :: 0 <= l < |db| && LinesOfLength(db, |db[l]|, |db|) >= threshold ==> |db[l]| <= m
  {
    var sizes := CountAll(LengthsUpTo(db, |db|));
    LargestLength(db, threshold);
    LargestFrequent(sizes.order, sizes.counts, threshold, 0)
  }

  lemma LargestLength(db: Database, threshold: int)
    ensures var sizes := CountAll(LengthsUpTo(db, |db|));
      var m := LargestFrequent(sizes.order, sizes.counts, threshold, 0);
      && (m == 0 || exists l :: 0 <= l < |db| && |db[l]| == m && LinesOfLength(db, m, |db|) >= threshold)
      && (forall l :: 0 <= l < |db| && LinesOfLength(db, |db[l]|, |db|) >= threshold ==> |db[l]| <= m)
  {
    var lengths := LengthsUpTo(db, |db|);
    var sizes := CountAll(lengths);
    LengthsCounted(db, |db|);
    var m := LargestFrequent(sizes.order, sizes.counts, threshold, 0);
    forall l | 0 <= l < |db| && LinesOfLength(db, |db[l]|, |db|) >= threshold ensures |db[l]| <= m {
      LengthListed(db, |db|, l);
      var j :| 0 <= j < |lengths| && lengths[j] == |db[l]|;
      var i :| 0 <= i < |sizes.order| && sizes.order[i] == |db[l]|;
    }
    if m != 0 {
      var i :| 0 <= i < |sizes.order| && sizes.order[i] == m;
      var j :| 0 <= j < |lengths| && lengths[j] == m;
      LengthOfLine(db, |db|, j);
    }
  }

  /** The longest transaction's length, the bound the corrected driver uses. */
  function Longest(db: Database): (m: nat)
    ensures forall l :: 0 <= l < |db| ==> |db[l]| <= m
    ensures db == [] || exists l :: 0 <= l < |db| && |db[l]| == m
  {
    if db == [] then 0
    else
      var rest := Longest(db[1..]);
      assert forall l :: 1 <= l < |db| ==> db[l] == db[1..][l - 1];
      if |db[0]| >= rest then |db[0]|
      else
        var l :| 0 <= l < |db[1..]| && |db[1..][l]| == rest;
        assert |db[l + 1]| == rest;
        rest
  }

  lemma {:induction false} LengthsCounted(db: Database, n: nat)
    requires n <= |db|
    ensures forall len :: multiset(LengthsUpTo(db, n))[len] == LinesOfLength(db, len, n)
  {
    if n > 0 {
      LengthsCounted(db, n - 1);
    }
  }

  lemma {:induction false} LengthListed(db: Database, n: nat, l: nat)
    requires l < n <= |db|
    ensures |db[l]| in LengthsUpTo(db, n)
  {
    if l < n - 1 {
      LengthListed(db, n - 1, l);
    }
  }

  lemma {:induction false} LengthOfLine(db: Database, n: nat, i: nat)
    requires n <= |db| && i < |LengthsUpTo(db, n)|
    ensures exists l :: 0 <= l < n && |db[l]| == LengthsUpTo(db, n)[i]
  {
    if i < |LengthsUpTo(db, n - 1)| {
      LengthOfLine(db, n - 1, i);
    } else {
      assert LengthsUpTo(db, n)[i] == |db[n - 1]|;
    }
  }

  /** Over canonical transactions an item's occurrence count is its support. */
  lemma {:induction false} OccurrencesAreSupport(db: Database, n: nat, x: int)
    requires SortedLines(db) && n <= |db|
    ensures multiset(ItemsUpTo(db, n))[x] == LiveSupport(db, {}, [x], n)
  {
    if n > 0 {
      OccurrencesAreSupport(db, n - 1, x);
      IncreasingMultiplicity(db[n - 1], x);
      assert Contains(db[n - 1], [x]) <==> x in db[n - 1];
    }
  }

  // ---------------------------------------------------------------------------
  // The level loop

  /** How a run of `generateFIS` ends: with its item table and skip set, or with the crash. */
  datatype Mining = Mined(items: Table, skip: set<nat>) | IndexOutOfBounds

  /**
   * The loop of lines 291-301 from level `k` up to `bound`, with `last` the
   * frequent (k-1)-itemsets. `buildNewCandidates` on an empty list throws.
   */
  function Levels(db: Database, threshold: int, k: nat, bound: nat, last: seq<seq<int>>, items: Table, skip: set<nat>): (r: Mining)
    requires SortedLines(db)
    ensures r.Mined? ==> items.Keys <= r.items.Keys && skip <= r.skip
    ensures |last| > 0 ==> r.Mined?
    decreases bound - k
  {
    if k > bound then Mined(items, skip)
    else if |last| == 0 then IndexOutOfBounds
    else
      var cands := BuildNewCandidates(last);
      if |cands| == 0 then Mined(items, skip)
      else
        var v := ValidateCandidates(db, cands, threshold, items, skip);
        if |v.frequent| == 0 then Mined(v.items, v.skip)
        else Levels(db, threshold, k + 1, bound, v.frequent, v.items, v.skip)
  }

  /** generateFIS after the constructor, as written: levels 2 .. maxSize. */
  function GenerateAsWritten(db: Database, threshold: int): (r: Mining)
    requires SortedLines(db)
    ensures r.IndexOutOfBounds? <==> |OneItemSets(db, threshold)| == 0 && MaxSize(db, threshold) >= 2
    ensures r.Mined? ==> OneItemCounts(db, threshold).Keys <= r.items.Keys
  {
    Levels(db, threshold, 2, MaxSize(db, threshold), OneItemSets(db, threshold), OneItemCounts(db, threshold), {})
  }

  /**
   * The corrected driver: stop when no item is frequent, and run the levels up
   * to the longest transaction.
   */
  function Generate(db: Database, threshold: int): (r: Mining)
    requires SortedLines(db)
    ensures r.Mined?
    ensures OneItemCounts(db, threshold).Keys <= r.items.Keys
  {
    var one := OneItemSets(db, threshold);
    if |one| == 0 then Mined(OneItemCounts(db, threshold), {})
    else Levels(db, threshold, 2, Longest(db), one, OneItemCounts(db, threshold), {})
  }

  // ---------------------------------------------------------------------------
  // What the levels keep invariant

  /** A frequent itemset: canonical, and contained in at least `threshold` transactions. */
  predicate Frequent(db: Database, threshold: int, s: seq<int>)
  {
    Increasing(s) && Support(db, s) >= threshold
  }

  /** `last` lists each frequent (k-1)-itemset once. */
  ghost predicate LastLevel(db: Database, threshold: int, k: nat, last: seq<seq<int>>)
  {
    && Distinct(last)
    && forall s :: s in last <==> Frequent(db, threshold, s) && |s| == k - 1
  }

  /** `items` holds exactly the frequent itemsets of sizes 1 .. k-1, each with its support. */
  ghost predicate Recorded(db: Database, threshold: int, k: nat, items: Table)
  {
    && (forall s :: s in items <==> Frequent(db, threshold, s) && 1 <= |s| < k)
    && (forall s :: s in items ==> items[s] == Support(db, s))
  }

  /** No skipped line contains a frequent itemset of size `m` or more. */
  ghost predicate SkipSound(db: Database, threshold: int, m: nat, skip: set<nat>)
  {
    forall l :: l in skip ==> l < |db| && forall s :: Frequent(db, threshold, s) && |s| >= m ==> !Contains(db[l], s)
  }

  ghost predicate LevelInv(db: Database, threshold: int, k: nat, last: seq<seq<int>>, items: Table, skip: set<nat>)
  {
    && k >= 2
    && LastLevel(db, threshold, k, last)
    && Recorded(db, threshold, k, items)
    && SkipSound(db, threshold, k - 1, skip)
    && (k > 2 ==> |last| > 0)
  }

  /** Apriori property: every prefix of a frequent itemset is frequent. */
  lemma PrefixFrequent(db: Database, threshold: int, s: seq<int>, j: nat)
    requires Frequent(db, threshold, s) && j <= |s|
    ensures Frequent(db, threshold, s[..j])
  {
    IncreasingParts(s, j, j);
    SupportAntiMonotone(db, s[..j], s, |db|);
  }

  /** Apriori property: every (k-1)-subset of a frequent k-itemset is frequent. */
  lemma WithoutFrequent(db: Database, threshold: int, s: seq<int>, p: nat)
    requires Frequent(db, threshold, s) && p < |s|
    ensures Frequent(db, threshold, Without(s, p))
  {
    WithoutContained(s, p);
    SupportAntiMonotone(db, Without(s, p), s, |db|);
  }

  /** Every frequent k-itemset is among the candidates built from the frequent (k-1)-itemsets. */
  lemma FrequentAreCandidates(db: Database, threshold: int, k: nat, last: seq<seq<int>>, s: seq<int>)
    requires k >= 2 && LastLevel(db, threshold, k, last) && |last| > 0
    requires Frequent(db, threshold, s) && |s| == k
    ensures s in BuildNewCandidates(last)
  {
    forall p | 0 <= p < |s| ensures Without(s, p) in last {
      WithoutFrequent(db, threshold, s, p);
    }
    assert last[0] in last;
    CandidateCompleteness(last, s);
  }

  /** Every candidate is a canonical k-itemset. */
  lemma CandidatesCanonical(db: Database, threshold: int, k: nat, last: seq<seq<int>>, c: seq<int>)
    requires k >= 2 && LastLevel(db, threshold, k, last) && |last| > 0
    requires c in BuildNewCandidates(last)
    ensures Increasing(c) && |c| == k
  {
    assert forall i :: 0 <= i < |last| ==> last[i] in last;
    CandidateShape(last, c);
  }

  /** Skipped lines hold none of a frequent itemset's supporters, so its live count is its support. */
  lemma LiveIsSupport(db: Database, threshold: int, m: nat, skip: set<nat>, s: seq<int>)
    requires SkipSound(db, threshold, m, skip)
    requires Frequent(db, threshold, s) && |s| >= m
    ensures LiveSupport(db, skip, s, |db|) == Support(db, s)
  {
    LiveSupportExact(db, skip, s, |db|);
  }

  /** One level finds exactly the frequent k-itemsets. */
  lemma StepFrequent(db: Database, threshold: int, k: nat, last: seq<seq<int>>, items: Table, skip: set<nat>)
    requires SortedLines(db) && LevelInv(db, threshold, k, last, items, skip) && |last| > 0
    requires |BuildNewCandidates(last)| > 0
    ensures var cands := BuildNewCandidates(last);
      |cands[0]| == k &&
      forall s :: s in ValidateCandidates(db, cands, threshold, items, skip).frequent <==> Frequent(db, threshold, s) && |s| == k
  {
    var cands := BuildNewCandidates(last);
    CandidatesCanonical(db, threshold, k, last, cands[0]);
    var v := ValidateCandidates(db, cands, threshold, items, skip);
    forall s ensures s in v.frequent <==> Frequent(db, threshold, s) && |s| == k {
      if s in v.frequent {
        CandidatesCanonical(db, threshold, k, last, s);
        LiveSupportAtMost(db, skip, s, |db|);
      }
      if Frequent(db, threshold, s) && |s| == k {
        FrequentAreCandidates(db, threshold, k, last, s);
        LiveIsSupport(db, threshold, k - 1, skip, s);
      }
    }
  }

  /** After one level the table holds the frequent itemsets of sizes 1 .. k with their supports. */
  lemma StepRecorded(db: Database, threshold: int, k: nat, last: seq<seq<int>>, items: Table, skip: set<nat>)
    requires SortedLines(db) && LevelInv(db, threshold, k, last, items, skip) && |last| > 0
    requires |BuildNewCandidates(last)| > 0
    ensures Recorded(db, threshold, k + 1, ValidateCandidates(db, BuildNewCandidates(last), threshold, items, skip).items)
  {
    var cands := BuildNewCandidates(last);
    StepFrequent(db, threshold, k, last, items, skip);
    var v := ValidateCandidates(db, cands, threshold, items, skip);
    forall s | s in v.frequent ensures v.items[s] == Support(db, s) {
      LiveIsSupport(db, threshold, k - 1, skip, s);
    }
  }

  /** After one level no skipped line contains a frequent itemset of size k or more. */
  lemma StepSkip(db: Database, threshold: int, k: nat, last: seq<seq<int>>, items: Table, skip: set<nat>)
    requires SortedLines(db) && LevelInv(db, threshold, k, last, items, skip) && |last| > 0
    requires |BuildNewCandidates(last)| > 0
    ensures SkipSound(db, threshold, k, ValidateCandidates(db, BuildNewCandidates(last), threshold, items, skip).skip)
  {
    var cands := BuildNewCandidates(last);
    StepFrequent(db, threshold, k, last, items, skip);
    var v := ValidateCandidates(db, cands, threshold, items, skip);
    forall l | l in v.skip
      ensures l < |db| && forall s :: Frequent(db, threshold, s) && |s| >= k ==> !Contains(db[l], s)
    {
      if l !in skip {
        assert Dropped(db, k, cands, l);
        forall s | Frequent(db, threshold, s) && |s| >= k ensures !Contains(db[l], s) {
          PrefixFrequent(db, threshold, s, k);
          FrequentAreCandidates(db, threshold, k, last, s[..k]);
          assert !Contains(db[l], s[..k]);
        }
      }
    }
  }

  /**
   * One level of the loop: either no itemset of size k is frequent, or the
   * invariant holds one level up; the counts cover level k either way.
   */
  lemma StepInv(db: Database, threshold: int, k: nat, last: seq<seq<int>>, items: Table, skip: set<nat>)
    requires SortedLines(db) && LevelInv(db, threshold, k, last, items, skip) && |last| > 0
    requires |BuildNewCandidates(last)| > 0
    ensures var v := ValidateCandidates(db, BuildNewCandidates(last), threshold, items, skip);
      && Recorded(db, threshold, k + 1, v.items)
      && (|v.frequent| == 0 ==> forall t :: |t| == k ==> !Frequent(db, threshold, t))
      && (|v.frequent| > 0 ==> LevelInv(db, threshold, k + 1, v.frequent, v.items, v.skip))
  {
    StepFrequent(db, threshold, k, last, items, skip);
    StepRecorded(db, threshold, k, last, items, skip);
    StepSkip(db, threshold, k, last, items, skip);
  }

  /**
   * With no frequent itemset of size k the run stops, and what it has recorded
   * up to level k or k + 1 is every frequent itemset.
   */
  lemma EndsAtLevel(db: Database, threshold: int, k: nat, bound: nat, items: Table)
    requires k <= bound
    requires forall t :: |t| == k ==> !Frequent(db, threshold, t)
    requires Recorded(db, threshold, k, items) || Recorded(db, threshold, k + 1, items)
    ensures forall s :: s in items <==> Frequent(db, threshold, s) && 1 <= |s| && (|s| < k || |s| <= bound)
    ensures forall s :: s in items ==> items[s] == Support(db, s)
  {
    forall s | Frequent(db, threshold, s) ensures |s| < k {
      NoneLarger(db, threshold, k, s);
    }
  }

  lemma NoneLarger(db: Database, threshold: int, k: nat, s: seq<int>)
    requires forall t :: |t| == k ==> !Frequent(db, threshold, t)
    requires Frequent(db, threshold, s)
    ensures |s| < k
  {
    if |s| >= k {
      PrefixFrequent(db, threshold, s, k);
    }
  }

  /** Every frequent k-itemset is a candidate (all of them at once). */
  lemma AllFrequentAreCandidates(db: Database, threshold: int, k: nat, last: seq<seq<int>>)
    requires k >= 2 && LastLevel(db, threshold, k, last) && |last| > 0
    ensures forall s :: Frequent(db, threshold, s) && |s| == k ==> s in BuildNewCandidates(last)
  {
    forall s | Frequent(db, threshold, s) && |s| == k ensures s in BuildNewCandidates(last) {
      FrequentAreCandidates(db, threshold, k, last, s);
    }
  }

  /**
   * The level loop from a state satisfying the invariant: it throws exactly
   * when it starts on an empty list below the bound; otherwise it records
   * exactly the frequent itemsets below level k or within the bound, each
   * with its support.
   */
  lemma {:induction false} LevelsCorrect(db: Database, threshold: int, k: nat, bound: nat, last: seq<seq<int>>, items: Table, skip: set<nat>)
    requires SortedLines(db) && LevelInv(db, threshold, k, last, items, skip)
    ensures var r := Levels(db, threshold, k, bound, last, items, skip);
      && (r.IndexOutOfBounds? <==> k <= bound && |last| == 0)
      && (r.Mined? ==> forall s :: s in r.items <==> Frequent(db, threshold, s) && 1 <= |s| && (|s| < k || |s| <= bound))
      && (r.Mined? ==> forall s :: s in r.items ==> r.items[s] == Support(db, s))
    decreases bound - k
  {
    var r := Levels(db, threshold, k, bound, last, items, skip);
    if k > bound {
      assert r == Mined(items, skip);
    } else if |last| == 0 {
      assert r == IndexOutOfBounds;
    } else {
      var cands := BuildNewCandidates(last);
      if |cands| == 0 {
        assert r == Mined(items, skip);
        AllFrequentAreCandidates(db, threshold, k, last);
        EndsAtLevel(db, threshold, k, bound, items);
      } else {
        var v := ValidateCandidates(db, cands, threshold, items, skip);
        StepInv(db, threshold, k, last, items, skip);
        if |v.frequent| == 0 {
          assert r == Mined(v.items, v.skip);
          EndsAtLevel(db, threshold, k, bound, v.items);
        } else {
          assert r == Levels(db, threshold, k + 1, bound, v.frequent, v.items, v.skip);
          LevelsCorrect(db, threshold, k + 1, bound, v.frequent, v.items, v.skip);
        }
      }
    }
  }

  // ---------------------------------------------------------------------------
  // The whole run

  /**
   * Level one: the one-element lists kept are exactly the frequent
   * 1-itemsets, and the count stored for each is its support.
   */
  lemma OneItemFrequent(db: Database, threshold: int, s: seq<int>)
    requires SortedLines(db) && threshold >= 1
    ensures s in OneItemSets(db, threshold) <==> Frequent(db, threshold, s) && |s| == 1
    ensures s in OneItemCounts(db, threshold) ==> OneItemCounts(db, threshold)[s] == Support(db, s)
  {
    if |s| == 1 {
      var x := s[0];
      assert s == [x];
      OccurrencesAreSupport(db, |db|, x);
      assert x in Occurrences(db).counts <==> x in multiset(ItemsUpTo(db, |db|));
    }
  }

  /** The constructor leaves the invariant of level 2 behind. */
  lemma LevelOneInv(db: Database, threshold: int)
    requires SortedLines(db) && threshold >= 1
    ensures LevelInv(db, threshold, 2, OneItemSets(db, threshold), OneItemCounts(db, threshold), {})
  {
    var one := OneItemSets(db, threshold);
    var items := OneItemCounts(db, threshold);
    forall s ensures s in one <==> Frequent(db, threshold, s) && |s| == 1 {
      OneItemFrequent(db, threshold, s);
    }
    forall s | s in items ensures items[s] == Support(db, s) {
      OneItemFrequent(db, threshold, s);
    }
  }

  /** A frequent itemset is no longer than the longest transaction. */
  lemma FrequentFits(db: Database, threshold: int, s: seq<int>)
    requires SortedLines(db) && threshold >= 1 && Frequent(db, threshold, s)
    ensures |s| <= Longest(db)
  {
    SupportedSomewhere(db, s, |db|);
    var l :| 0 <= l < |db| && Contains(db[l], s);
    ContainedNotLonger(db[l], s);
  }

  /**
   * The corrected driver never throws and records exactly the frequent
   * itemsets, each with its support count.
   */
  lemma GenerateComplete(db: Database, threshold: int)
    requires SortedLines(db) && threshold >= 1
    ensures Generate(db, threshold).Mined?
    ensures forall s :: s in Generate(db, threshold).items <==> Frequent(db, threshold, s) && |s| >= 1
    ensures forall s :: s in Generate(db, threshold).items ==> Generate(db, threshold).items[s] == Support(db, s)
  {
    var one := OneItemSets(db, threshold);
    LevelOneInv(db, threshold);
    if |one| == 0 {
      forall t ensures t in one <==> Frequent(db, threshold, t) && |t| == 1 {
        OneItemFrequent(db, threshold, t);
      }
      assert forall t :: |t| == 1 ==> !Frequent(db, threshold, t);
      forall s | Frequent(db, threshold, s) ensures |s| < 1 {
        NoneLarger(db, threshold, 1, s);
      }
    } else {
      LevelsCorrect(db, threshold, 2, Longest(db), one, OneItemCounts(db, threshold), {});
      forall s | Frequent(db, threshold, s) ensures |s| <= Longest(db) {
        FrequentFits(db, threshold, s);
      }
    }
  }

  /**
   * The driver as written throws exactly when no item is frequent and
   * `maxSize` is at least 2; otherwise it records exactly the frequent
   * itemsets no longer than max(1, maxSize), each with its support count.
   */
  lemma GenerateAsWrittenResult(db: Database, threshold: int)
    requires SortedLines(db) && threshold >= 1
    ensures var r := GenerateAsWritten(db, threshold);
      && (r.IndexOutOfBounds? <==> |OneItemSets(db, threshold)| == 0 && MaxSize(db, threshold) >= 2)
      && (r.Mined? ==> forall s :: s in r.items <==>
            Frequent(db, threshold, s) && 1 <= |s| && (|s| == 1 || |s| <= MaxSize(db, threshold)))
      && (r.Mined? ==> forall s :: s in r.items ==> r.items[s] == Support(db, s))
  {
    LevelOneInv(db, threshold);
    LevelsCorrect(db, threshold, 2, MaxSize(db, threshold), OneItemSets(db, threshold), OneItemCounts(db, threshold), {});
  }

  // ---------------------------------------------------------------------------
  // The two defects on concrete data

  /** Over two transactions, the support of `s` counts which of the two contain it. */
  lemma SupportOfTwo(db: Database, s: seq<int>)
    requires |db| == 2
    ensures Support(db, s) == (if Contains(db[0], s) then 1 else 0) + (if Contains(db[1], s) then 1 else 0)
  {
    assert LiveSupport(db, {}, s, 1) == if Contains(db[0], s) then 1 else 0;
  }

  /** Over two transactions, the number of lines of length `len` counts which of the two have it. */
  lemma LengthsOfTwo(db: Database, len: nat)
    requires |db| == 2
    ensures LinesOfLength(db, len, 2) == (if |db[0]| == len then 1 else 0) + (if |db[1]| == len then 1 else 0)
  {
    assert LinesOfLength(db, len, 1) == if |db[0]| == len then 1 else 0;
  }

  /** Two disjoint pairs with threshold 2: no item is frequent, yet maxSize is 2, so the driver throws. */
  lemma EmptyLevelOneThrows(db: Database)
    requires db == [[1, 2], [3, 4]]
    ensures SortedLines(db) && GenerateAsWritten(db, 2) == IndexOutOfBounds
    ensures SortedLines(db) && Generate(db, 2) == Mined(map[], {})
  {
    assert SortedLines(db);
    DisjointPairsNoItem(db);
    LengthsOfTwo(db, 2);
    assert |db[0]| <= MaxSize(db, 2);
  }

  lemma DisjointPairsNoItem(db: Database)
    requires db == [[1, 2], [3, 4]]
    ensures OneItemSets(db, 2) == []
    ensures OneItemCounts(db, 2) == map[]
  {
    assert SortedLines(db);
    forall s | |s| == 1 ensures Support(db, s) <= 1 {
      SupportOfTwo(db, s);
      var x := s[0];
      assert x in s;
      assert Contains(db[0], s) ==> x == 1 || x == 2;
      assert Contains(db[1], s) ==> x == 3 || x == 4;
    }
    var one := OneItemSets(db, 2);
    forall i | 0 <= i < |one| ensures Support(db, one[i]) >= 2 && |one[i]| == 1 {
      OneItemFrequent(db, 2, one[i]);
    }
    assert |one| == 0;
    assert OneItemCounts(db, 2).Keys == {};
  }

  lemma UnevenPairMaxSize(db: Database)
    requires db == [[1, 2, 3], [1, 2, 3, 4]]
    ensures MaxSize(db, 2) == 0
  {
    var m := MaxSize(db, 2);
    LengthsOfTwo(db, m);
  }

  lemma UnevenPairSupports(db: Database)
    requires db == [[1, 2, 3], [1, 2, 3, 4]]
    ensures Support(db, [1]) == 2
    ensures Support(db, [1, 2]) == 2
  {
    SupportOfTwo(db, [1]);
    SupportOfTwo(db, [1, 2]);
    assert Contains(db[0], [1, 2]) && Contains(db[1], [1, 2]);
  }

  /**
   * No length is shared by two transactions of [[1,2,3],[1,2,3,4]], so maxSize
   * is 0 and only single items are mined, though {1,2} is in both transactions.
   */
  lemma MaxSizeMissesFrequentPair(db: Database)
    requires db == [[1, 2, 3], [1, 2, 3, 4]]
    ensures GenerateAsWritten(db, 2).Mined?
    ensures [1, 2] !in GenerateAsWritten(db, 2).items
    ensures Support(db, [1, 2]) == 2
  {
    assert SortedLines(db);
    UnevenPairMaxSize(db);
    UnevenPairSupports(db);
    OneItemFrequent(db, 2, [1]);
    OnlySingletons(db, 2, [1, 2]);
  }

  /**
   * A threshold of 0 keeps every candidate the merge builds, each with its
   * count: on two disjoint pairs the driver records {1,3}, which neither
   * transaction contains, with count 0. So below 1 the source's output is not
   * the (then infinite) set of frequent itemsets.
   */
  lemma ZeroThresholdRecordsAbsentPair(db: Database)
    requires db == [[1, 2], [3, 4]]
    ensures SortedLines(db) && var r := GenerateAsWritten(db, 0);
      r.Mined? && [1, 3] in r.items && r.items[[1, 3]] == 0
    ensures Support(db, [1, 3]) == 0
  {
    assert SortedLines(db);
    var pair := [1, 3];
    assert Support(db, pair) == 0 by { AbsentPairSupport(db); }
    var r := GenerateAsWritten(db, 0);
    assert r.Mined? && pair in r.items && r.items[pair] == Support(db, pair) by {
      EqualLengthsMaxSize(db, 0);
      ZeroThresholdCandidate(db);
      ZeroThresholdRun(db, pair);
    }
  }

  /** With maxSize 2 and threshold 0, every canonical pair candidate ends up recorded with its support. */
  lemma ZeroThresholdRun(db: Database, c: seq<int>)
    requires SortedLines(db) && MaxSize(db, 0) == 2 && |OneItemSets(db, 0)| > 0
    requires c in BuildNewCandidates(OneItemSets(db, 0)) && |BuildNewCandidates(OneItemSets(db, 0))[0]| == |c|
    requires Increasing(c)
    ensures GenerateAsWritten(db, 0).Mined? && c in GenerateAsWritten(db, 0).items
    ensures GenerateAsWritten(db, 0).items[c] == Support(db, c)
  {
    var one := OneItemSets(db, 0);
    var cands := BuildNewCandidates(one);
    ZeroThresholdKeeps(db, cands, OneItemCounts(db, 0), c);
    var v := ValidateCandidates(db, cands, 0, OneItemCounts(db, 0), {});
    assert Levels(db, 0, 2, 2, one, OneItemCounts(db, 0), {}) == Mined(v.items, v.skip);
  }

  /** Two transactions of one length, with a threshold of at most 2: maxSize is that length. */
  lemma EqualLengthsMaxSize(db: Database, threshold: int)
    requires |db| == 2 && |db[0]| == |db[1]| && threshold <= 2
    ensures MaxSize(db, threshold) == |db[0]|
  {
    var m := MaxSize(db, threshold);
    LengthsOfTwo(db, |db[0]|);
    assert LinesOfLength(db, |db[0]|, |db|) >= threshold;
    assert |db[0]| <= m;
    if m != 0 {
      var l :| 0 <= l < |db| && |db[l]| == m;
      assert l == 0 || l == 1;
    }
  }

  lemma AbsentPairSupport(db: Database)
    requires db == [[1, 2], [3, 4]]
    ensures Support(db, [1, 3]) == 0
  {
    var pair := [1, 3];
    SupportOfTwo(db, pair);
    assert !Contains(db[0], pair) by { assert 3 in pair; }
    assert !Contains(db[1], pair) by { assert 1 in pair; }
  }

  /** Both single items 1 and 3 are at level 1 under threshold 0, so {1,3} is built. */
  lemma ZeroThresholdCandidate(db: Database)
    requires db == [[1, 2], [3, 4]]
    ensures |OneItemSets(db, 0)| > 0
    ensures [1, 3] in BuildNewCandidates(OneItemSets(db, 0)) && Increasing([1, 3])
    ensures |BuildNewCandidates(OneItemSets(db, 0))[0]| == 2
  {
    assert 1 in db[0] && 3 in db[1];
    SingletonLevel(OneItemSets(db, 0), 1, 3);
  }

  /** A level of distinct singletons holding [x] and [y], x < y, builds {x,y}, and all its candidates are pairs. */
  lemma SingletonLevel(one: seq<seq<int>>, x: int, y: int)
    requires Distinct(one) && forall s :: s in one ==> |s| == 1
    requires x < y && [x] in one && [y] in one
    ensures |one| > 0 && [x, y] in BuildNewCandidates(one) && Increasing([x, y])
    ensures |BuildNewCandidates(one)[0]| == 2
  {
    var pair := [x, y];
    assert |one[0]| == 1;
    assert Without(pair, 0) == [y] && Without(pair, 1) == [x];
    CandidateCompleteness(one, pair);
    forall i | 0 <= i < |one| ensures Increasing(one[i]) && |one[i]| == |one[0]| {
      assert one[i] in one;
    }
    CandidateShape(one, BuildNewCandidates(one)[0]);
  }

  /** Under threshold 0 every canonical candidate is kept and recorded with its live support. */
  lemma ZeroThresholdKeeps(db: Database, cands: seq<seq<int>>, items: Table, c: seq<int>)
    requires SortedLines(db) && c in cands && |cands[0]| == |c| && Increasing(c)
    ensures var v := ValidateCandidates(db, cands, 0, items, {});
      && |v.frequent| > 0 && c in v.items && v.items[c] == Support(db, c)
  {
    var v := ValidateCandidates(db, cands, 0, items, {});
    assert c in v.frequent;
  }

  /** With maxSize below 2 and some frequent item, the driver as written mines single items only. */
  lemma OnlySingletons(db: Database, threshold: int, s: seq<int>)
    requires SortedLines(db) && threshold >= 1 && MaxSize(db, threshold) < 2
    requires |OneItemSets(db, threshold)| > 0
    ensures GenerateAsWritten(db, threshold).Mined?
    ensures s in GenerateAsWritten(db, threshold).items ==> |s| == 1
  {
    GenerateAsWrittenResult(db, threshold);
  }

  /** The corrected driver mines {1,2} from the same transactions. */
  lemma CorrectedFindsPair(db: Database)
    requires db == [[1, 2, 3], [1, 2, 3, 4]]
    ensures Generate(db, 2).Mined? && [1, 2] in Generate(db, 2).items
    ensures Generate(db, 2).items[[1, 2]] == 2
  {
    assert SortedLines(db);
    UnevenPairSupports(db);
    var pair := [1, 2];
    assert Increasing(pair);
    FoundWhenFrequent(db, 2, pair);
  }

  lemma FoundWhenFrequent(db: Database, threshold: int, s: seq<int>)
    requires SortedLines(db) && threshold >= 1 && Frequent(db, threshold, s) && |s| >= 1
    ensures Generate(db, threshold).Mined? && s in Generate(db, threshold).items
    ensures Generate(db, threshold).items[s] == Support(db, s)
  {
    GenerateComplete(db, threshold);
  }
}
