/**
 * Items, itemsets and transactions of the Apriori miner (Apriori/src/Apriori.java).
 *
 * An item is an `int`. A transaction is a line of the data file: the source
 * assumes its items are sorted (header comment, line 6), and the correctness
 * theorems take them strictly increasing. An itemset is kept in the same
 * canonical, strictly increasing form. The database is the sequence of lines,
 * indexed by line number as `validateCandidates` counts them.
 */
module Itemsets {
  import opened Collections

  type Itemset = seq<int>
  type Database = seq<seq<int>>

  /** Canonical form: strictly ascending, hence duplicate-free. */
  predicate Increasing(s: seq<int>)
  {
    forall i, j :: 0 <= i < j < |s| ==> s[i] < s[j]
  }

  /** Every line of the database is in canonical form. */
  predicate SortedLines(db: Database)
  {
    forall l :: 0 <= l < |db| ==> Increasing(db[l])
  }

  /** Transaction `t` contains every item of `s` (order and repetition ignored). */
  predicate Contains(t: seq<int>, s: seq<int>)
  {
    forall x :: x in s ==> x in t
  }

  /**
   * The number of lines `l < n` that are not in `skip` and contain `s`: the
   * support of `s` among the lines a scan still reads.
   */
  function LiveSupport(db: Database, skip: set<nat>, s: seq<int>, n: nat): nat
    requires n <= |db|
  {
    if n == 0 then 0
    else LiveSupport(db, skip, s, n - 1) + (if n - 1 !in skip && Contains(db[n - 1], s) then 1 else 0)
  }

  /** Support count: the number of transactions containing `s`. */
  function Support(db: Database, s: seq<int>): nat
  {
    LiveSupport(db, {}, s, |db|)
  }

  /** `s` with the element at position `p` removed: one of its (|s|-1)-subsets. */
  function Without(s: seq<int>, p: nat): (r: seq<int>)
    requires p < |s|
    ensures |r| == |s| - 1
  {
    s[..p] + s[p + 1..]
  }

  /** The number of lines `l < n` whose length is exactly `len`. */
  function LinesOfLength(db: Database, len: nat, n: nat): nat
    requires n <= |db|
  {
    if n == 0 then 0
    else LinesOfLength(db, len, n - 1) + (if |db[n - 1]| == len then 1 else 0)
  }

  // ---------------------------------------------------------------------------
  // Canonical itemsets

  lemma IncreasingParts(s: seq<int>, i: nat, j: nat)
    requires Increasing(s) && i <= j <= |s|
    ensures Increasing(s[i..j]) && Increasing(s[..i]) && Increasing(s[j..])
  {
  }

  /** A canonical itemset has as many distinct items as positions. */
  lemma {:induction false} IncreasingCard(s: seq<int>)
    requires Increasing(s)
    ensures |set x | x in s| == |s|
  {
    if s != [] {
      var init := s[..|s| - 1];
      IncreasingCard(init);
      assert (set x | x in s) == (set x | x in init) + {s[|s| - 1]};
      assert s[|s| - 1] !in (set x | x in init);
    }
  }

  /** Two canonical itemsets with the same items are equal. */
  lemma {:induction false} IncreasingUnique(a: seq<int>, b: seq<int>)
    requires Increasing(a) && Increasing(b)
    requires forall x :: x in a <==> x in b
    ensures a == b
    decreases |a|
  {
    if a != [] || b != [] {
      assert a != [] ==> a[0] in a && a[0] in b;
      assert b != [] ==> b[0] in b && b[0] in a;
      assert a != [] && b != [];
      var j :| 0 <= j < |b| && b[j] == a[0];
      assert b[0] <= a[0];
      assert b[0] in b && b[0] in a;
      var i :| 0 <= i < |a| && a[i] == b[0];
      assert a[0] <= b[0];
      forall x
        ensures x in a[1..] <==> x in b[1..]
      {
        if x in a[1..] {
          var p :| 1 <= p < |a| && a[p] == x;
          assert x in b && x != b[0];
        }
        if x in b[1..] {
          var p :| 1 <= p < |b| && b[p] == x;
          assert x in a && x != a[0];
        }
      }
      IncreasingUnique(a[1..], b[1..]);
      assert a == [a[0]] + a[1..] && b == [b[0]] + b[1..];
    }
  }

  /** A canonical itemset contained in a canonical transaction is no longer than it. */
  lemma ContainedNotLonger(t: seq<int>, s: seq<int>)
    requires Increasing(t) && Increasing(s) && Contains(t, s)
    ensures |s| <= |t|
  {
    IncreasingCard(s);
    IncreasingCard(t);
    SubsetCard(set x | x in s, set x | x in t);
  }

  /** In a canonical itemset, a value occurs exactly once or not at all. */
  lemma {:induction false} IncreasingMultiplicity(s: seq<int>, x: int)
    requires Increasing(s)
    ensures multiset(s)[x] == if x in s then 1 else 0
  {
    if s != [] {
      var init := s[..|s| - 1];
      assert s == init + [s[|s| - 1]];
      IncreasingMultiplicity(init, x);
      assert s[|s| - 1] !in init;
    }
  }

  /**
   * Inside a canonical transaction, being an order-preserving subsequence is
   * the same as being a canonical itemset whose items the transaction contains.
   */
  lemma SubsequenceOfIncreasing(s: seq<int>, t: seq<int>)
    requires Increasing(t)
    ensures IsSubsequence(s, t) <==> Increasing(s) && Contains(t, s)
  {
    if IsSubsequence(s, t) {
      SubsequenceIsCanonical(s, t);
    }
    if Increasing(s) && Contains(t, s) {
      CanonicalIsSubsequence(s, t);
    }
  }

  lemma {:induction false} SubsequenceIsCanonical(s: seq<int>, t: seq<int>)
    requires Increasing(t) && IsSubsequence(s, t)
    ensures Increasing(s) && Contains(t, s)
    decreases |t|
  {
    if s != [] {
      if s[0] == t[0] && IsSubsequence(s[1..], t[1..]) {
        SubsequenceIsCanonical(s[1..], t[1..]);
        forall i | 0 < i < |s| ensures s[0] < s[i] {
          assert s[i] in s[1..];
          var j :| 0 <= j < |t[1..]| && t[1..][j] == s[i];
        }
        forall x | x in s ensures x in t {
          if x != s[0] {
            assert x in s[1..];
          }
        }
      } else {
        SubsequenceIsCanonical(s, t[1..]);
      }
    }
  }

  lemma {:induction false} CanonicalIsSubsequence(s: seq<int>, t: seq<int>)
    requires Increasing(t) && Increasing(s) && Contains(t, s)
    ensures IsSubsequence(s, t)
    decreases |t|
  {
    if s != [] {
      assert s[0] in s;
      var j :| 0 <= j < |t| && t[j] == s[0];
      if s[0] == t[0] {
        forall x | x in s[1..] ensures x in t[1..] {
          var i :| 1 <= i < |s| && s[i] == x;
          assert x in t && x != t[0];
        }
        CanonicalIsSubsequence(s[1..], t[1..]);
      } else {
        assert 0 < j && t[0] < t[j];
        forall x | x in s ensures x in t[1..] {
          var i :| 0 <= i < |s| && s[i] == x;
          assert s[0] <= x;
          assert x in t && x != t[0];
        }
        CanonicalIsSubsequence(s, t[1..]);
      }
    }
  }

  // ---------------------------------------------------------------------------
  // Support counting

  /** Skipping lines can only lower a live count. */
  lemma {:induction false} LiveSupportAtMost(db: Database, skip: set<nat>, s: seq<int>, n: nat)
    requires n <= |db|
    ensures LiveSupport(db, skip, s, n) <= LiveSupport(db, {}, s, n)
  {
    if n > 0 {
      LiveSupportAtMost(db, skip, s, n - 1);
    }
  }

  /** Skipping lines that do not contain `s` does not change its count. */
  lemma {:induction false} LiveSupportExact(db: Database, skip: set<nat>, s: seq<int>, n: nat)
    requires n <= |db|
    requires forall l :: l in skip && l < n ==> !Contains(db[l], s)
    ensures LiveSupport(db, skip, s, n) == LiveSupport(db, {}, s, n)
  {
    if n > 0 {
      LiveSupportExact(db, skip, s, n - 1);
    }
  }

  /** Anti-monotonicity: a superset is supported by no more lines than a subset. */
  lemma {:induction false} SupportAntiMonotone(db: Database, small: seq<int>, big: seq<int>, n: nat)
    requires n <= |db|
    requires Contains(big, small)
    ensures LiveSupport(db, {}, big, n) <= LiveSupport(db, {}, small, n)
  {
    if n > 0 {
      SupportAntiMonotone(db, small, big, n - 1);
    }
  }

  /** A supported set is contained in some line. */
  lemma {:induction false} SupportedSomewhere(db: Database, s: seq<int>, n: nat)
    requires n <= |db|
    requires LiveSupport(db, {}, s, n) > 0
    ensures exists l :: 0 <= l < n && Contains(db[l], s)
  {
    if !Contains(db[n - 1], s) {
      SupportedSomewhere(db, s, n - 1);
    }
  }

  lemma WithoutContained(s: seq<int>, p: nat)
    requires p < |s|
    ensures Contains(s, Without(s, p))
    ensures Increasing(s) ==> Increasing(Without(s, p))
  {
    if Increasing(s) {
      var w := Without(s, p);
      forall i, j | 0 <= i < j < |w| ensures w[i] < w[j] {
        var i' := if i < p then i else i + 1;
        var j' := if j < p then j else j + 1;
        assert w[i] == s[i'] && w[j] == s[j'];
      }
    }
  }

  /** Removing position `p` from a canonical itemset removes exactly the item `s[p]`. */
  lemma WithoutItems(s: seq<int>, p: nat)
    requires Increasing(s) && p < |s|
    ensures forall x :: x in Without(s, p) <==> x in s && x != s[p]
  {
    var w := Without(s, p);
    forall x ensures x in w <==> x in s && x != s[p] {
      if x in w {
        var i :| 0 <= i < |w| && w[i] == x;
        if i < p {
          assert w[i] == s[i];
        } else {
          assert w[i] == s[i + 1];
        }
      }
      if x in s && x != s[p] {
        var i :| 0 <= i < |s| && s[i] == x;
        if i < p {
          assert w[i] == x;
        } else {
          assert w[i - 1] == x;
        }
      }
    }
  }
}
