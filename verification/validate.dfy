/**
 * `validateCandidates` (Apriori/src/Apriori.java:210-283): one pass over the
 * database that counts, for every candidate of size k, the transactions that
 * contain it, and grows the permanent set of line numbers later passes skip.
 *
 * Each line not yet skipped is filtered down to the items that occur in some
 * candidate (the dictionary); a filtered line shorter than k is passed over
 * without being recorded; otherwise every k-subset of it that is a candidate
 * is counted, and a line none of whose k-subsets is a candidate is recorded
 * in the skip set.
 */
module Validate {
  import opened Collections
  import opened Itemsets
  import opened Subsets

  /** A hash map from itemsets to counts (`frequency`, and the miner's `mItemSet`). */
  type Table = map<seq<int>, nat>

  /** The dictionary of lines 220-223: every item of every candidate. */
  function Dict(cands: seq<seq<int>>): (d: set<int>)
    ensures forall x :: x in d <==> exists c :: c in cands && x in c
  {
    if cands == [] then {}
    else
      var init := cands[..|cands| - 1];
      var last := cands[|cands| - 1];
      assert cands == init + [last];
      Dict(init) + set x | x in last
  }

  /** The items of `line` that are in `dict`, in their order: lines 238-245. */
  function KeepItems(line: seq<int>, dict: set<int>): (r: seq<int>)
    ensures forall x :: x in r <==> x in line && x in dict
    ensures Increasing(line) ==> Increasing(r)
  {
    if line == [] then []
    else
      var rest := KeepItems(line[1..], dict);
      KeepItemsBelow(line, rest);
      (if line[0] in dict then [line[0]] else []) + rest
  }

  lemma KeepItemsBelow(line: seq<int>, rest: seq<int>)
    requires line != []
    requires Increasing(line[1..]) ==> Increasing(rest)
    requires forall x :: x in rest ==> x in line[1..]
    ensures Increasing(line) ==> Increasing([line[0]] + rest) && Increasing(rest)
  {
    if Increasing(line) {
      var r := [line[0]] + rest;
      forall i, j | 0 <= i < j < |r| ensures r[i] < r[j] {
        if i == 0 {
          assert r[j] in line[1..];
        } else {
          assert r[i] == rest[i - 1] && r[j] == rest[j - 1];
        }
      }
    }
  }

  /** The count table after the counting loop of lines 256-261, and whether any subset was a key. */
  datatype Tally = Tally(freq: Table, hit: bool)

  /** Lines 255-261: bump the count of every subset that is a key of `freq`. */
  function TallySubsets(freq: Table, subs: seq<seq<int>>): (r: Tally)
    ensures r.freq.Keys == freq.Keys
    ensures forall c :: c in freq ==> r.freq[c] == freq[c] + multiset(subs)[c]
    ensures r.hit <==> exists i :: 0 <= i < |subs| && subs[i] in freq
  {
    if subs == [] then Tally(freq, false)
    else
      var init := subs[..|subs| - 1];
      var last := subs[|subs| - 1];
      assert subs == init + [last];
      SnocHit(freq, subs);
      var t := TallySubsets(freq, init);
      if last in freq then Tally(t.freq[last := t.freq[last] + 1], true) else Tally(t.freq, t.hit)
  }

  /** Some subset is a key iff one before the last is, or the last one is. */
  lemma SnocHit(freq: Table, subs: seq<seq<int>>)
    requires subs != []
    ensures var init := subs[..|subs| - 1];
      (exists i :: 0 <= i < |subs| && subs[i] in freq) <==>
      (exists i :: 0 <= i < |init| && init[i] in freq) || subs[|subs| - 1] in freq
  {
    var init := subs[..|subs| - 1];
    if exists i :: 0 <= i < |subs| && subs[i] in freq {
      var i :| 0 <= i < |subs| && subs[i] in freq;
      if i < |init| {
        assert init[i] == subs[i];
      }
    }
    if exists i :: 0 <= i < |init| && init[i] in freq {
      var i :| 0 <= i < |init| && init[i] in freq;
      assert subs[i] == init[i];
    }
  }

  /** The state threaded through the pass over the lines. */
  datatype Scan = Scan(freq: Table, skip: set<nat>)

  /** The loop body of lines 230-265 for line `l`. */
  function ScanLine(db: Database, k: nat, dict: set<int>, st: Scan, l: nat): (r: Scan)
    requires l < |db|
    ensures r.freq.Keys == st.freq.Keys
    ensures r.skip == st.skip || r.skip == st.skip + {l}
  {
    if l in st.skip then st
    else
      var t := KeepItems(db[l], dict);
      if |t| < k then st
      else
        var tally := TallySubsets(st.freq, SubsetsOfSize(t, k));
        Scan(tally.freq, if tally.hit then st.skip else st.skip + {l})
  }

  /** The loop over lines 0 .. n-1. */
  function ScanLines(db: Database, k: nat, dict: set<int>, st: Scan, n: nat): (r: Scan)
    requires n <= |db|
    ensures r.freq.Keys == st.freq.Keys
    ensures st.skip <= r.skip
    ensures forall l :: l in r.skip && l !in st.skip ==> l < n
  {
    if n == 0 then st
    else ScanLine(db, k, dict, ScanLines(db, k, dict, st, n - 1), n - 1)
  }

  /** Lines 213-216: every candidate starts at count 0. */
  function Zeros(cands: seq<seq<int>>): (t: Table)
    ensures t.Keys == set c | c in cands
    ensures forall c :: c in t ==> t[c] == 0
  {
    map c | c in cands :: 0
  }

  /** What `validateCandidates` returns and leaves behind in the miner. */
  datatype Validated = Validated(frequent: seq<seq<int>>, items: Table, skip: set<nat>)

  /**
   * The count a candidate should receive: the lines not already skipped that
   * contain it, when it is a canonical k-set; a list of another shape matches
   * no k-subset and keeps count 0.
   */
  function Expected(db: Database, skip: set<nat>, c: seq<int>, k: nat): nat
  {
    if Increasing(c) && |c| == k then LiveSupport(db, skip, c, |db|) else 0
  }

  /**
   * Line `l` is recorded as unwanted at level k: its filtered form is long
   * enough to be enumerated, yet it contains no canonical k-set among the candidates.
   */
  predicate Dropped(db: Database, k: nat, cands: seq<seq<int>>, l: nat)
    requires l < |db|
  {
    && |KeepItems(db[l], Dict(cands))| >= k
    && forall c :: c in cands && Increasing(c) && |c| == k ==> !Contains(db[l], c)
  }

  /**
   * validateCandidates over the database `db`, whose lines are sorted as the
   * source assumes; `items` is `mItemSet` and `skip` is `unwantedLines` on entry.
   * The list read for k is `candidates.get(0)`, so `cands` must not be empty.
   */
  function ValidateCandidates(db: Database, cands: seq<seq<int>>, threshold: int, items: Table, skip: set<nat>): (r: Validated)
    requires |cands| > 0 && SortedLines(db)
    ensures forall c :: c in r.frequent <==> c in cands && Expected(db, skip, c, |cands[0]|) >= threshold
    ensures Distinct(r.frequent)
    ensures forall c :: c in r.items <==> c in items || c in r.frequent
    ensures forall c :: c in r.frequent ==> r.items[c] == Expected(db, skip, c, |cands[0]|)
    ensures forall c :: c in items && c !in r.frequent ==> r.items[c] == items[c]
    ensures forall l: nat :: l in r.skip <==> l in skip || (l < |db| && Dropped(db, |cands[0]|, cands, l))
  {
    var k := |cands[0]|;
    var scan := ScanLines(db, k, Dict(cands), Scan(Zeros(cands), skip), |db|);
    ScanExact(db, k, cands, skip, |db|);
    var order := Dedup(cands);
    var frequent := KeepAtLeast(order, scan.freq, threshold);
    FrequentExactly(cands, scan.freq, threshold, order, frequent);
    assert forall c :: c in cands ==> scan.freq[c] == Expected(db, skip, c, k);
    Validated(frequent, Record(items, frequent, scan.freq), scan.skip)
  }

  /** Line 278: `mItemSet.put(c, count)` for every kept candidate `c`. */
  function Record(items: Table, keys: seq<seq<int>>, freq: Table): (r: Table)
    requires forall c :: c in keys ==> c in freq
    ensures forall c :: c in r <==> c in items || c in keys
    ensures forall c :: c in keys ==> r[c] == freq[c]
    ensures forall c :: c in items && c !in keys ==> r[c] == items[c]
  {
    if keys == [] then items
    else Record(items, keys[1..], freq)[keys[0] := freq[keys[0]]]
  }

  // ---------------------------------------------------------------------------
  // Exact counts

  /** Filtering to the dictionary loses none of a candidate's items. */
  lemma FilterKeepsCandidates(line: seq<int>, cands: seq<seq<int>>, c: seq<int>)
    requires c in cands
    ensures Contains(line, c) <==> Contains(KeepItems(line, Dict(cands)), c)
  {
  }

  /** A canonical candidate inside a canonical line fits inside its filtered form. */
  lemma FilteredLongEnough(line: seq<int>, cands: seq<seq<int>>, c: seq<int>)
    requires Increasing(line) && c in cands && Increasing(c)
    ensures Contains(line, c) ==> |c| <= |KeepItems(line, Dict(cands))|
  {
    if Contains(line, c) {
      FilterKeepsCandidates(line, cands, c);
      ContainedNotLonger(KeepItems(line, Dict(cands)), c);
    }
  }

  /** One line adds one to exactly the canonical k-candidates it contains, unless it was skipped. */
  lemma ScanLineExact(db: Database, k: nat, cands: seq<seq<int>>, skip0: set<nat>, st: Scan, l: nat)
    requires SortedLines(db) && l < |db|
    requires st.freq.Keys == set c | c in cands
    requires forall m :: m in st.skip ==> m in skip0 || m < l
    requires skip0 <= st.skip
    ensures var r := ScanLine(db, k, Dict(cands), st, l);
      && (forall c :: c in cands ==>
            r.freq[c] == st.freq[c] + (if l !in skip0 && Increasing(c) && |c| == k && Contains(db[l], c) then 1 else 0))
      && r.skip == st.skip + (if l !in skip0 && Dropped(db, k, cands, l) then {l} else {})
  {
    var dict := Dict(cands);
    var r := ScanLine(db, k, dict, st, l);
    var t := KeepItems(db[l], dict);
    if l !in skip0 {
      if |t| < k {
        forall c | c in cands ensures !(Increasing(c) && |c| == k && Contains(db[l], c)) {
          if Increasing(c) {
            FilteredLongEnough(db[l], cands, c);
          }
        }
      } else {
        var subs := SubsetsOfSize(t, k);
        var tally := TallySubsets(st.freq, subs);
        forall c | c in cands
          ensures multiset(subs)[c] == if Increasing(c) && |c| == k && Contains(db[l], c) then 1 else 0
        {
          SubsetMultiplicity(t, k, c);
          FilterKeepsCandidates(db[l], cands, c);
        }
        HitIffContained(db, k, cands, st.freq, l);
      }
    }
  }

  lemma HitIffContained(db: Database, k: nat, cands: seq<seq<int>>, freq: Table, l: nat)
    requires SortedLines(db) && l < |db|
    requires freq.Keys == set c | c in cands
    ensures var subs := SubsetsOfSize(KeepItems(db[l], Dict(cands)), k);
      (exists i :: 0 <= i < |subs| && subs[i] in freq) <==>
      (exists c :: c in cands && Increasing(c) && |c| == k && Contains(db[l], c))
  {
    var t := KeepItems(db[l], Dict(cands));
    var subs := SubsetsOfSize(t, k);
    if exists i :: 0 <= i < |subs| && subs[i] in freq {
      var i :| 0 <= i < |subs| && subs[i] in freq;
      var c := subs[i];
      SubsetsOfIncreasing(t, k, c);
      FilterKeepsCandidates(db[l], cands, c);
    }
    if exists c :: c in cands && Increasing(c) && |c| == k && Contains(db[l], c) {
      var c :| c in cands && Increasing(c) && |c| == k && Contains(db[l], c);
      SubsetsOfIncreasing(t, k, c);
      FilterKeepsCandidates(db[l], cands, c);
      var i :| 0 <= i < |subs| && subs[i] == c;
    }
  }

  /**
   * After lines 0 .. n-1 each candidate's count is its live support among them,
   * and the skip set has grown by exactly the dropped lines among them.
   */
  lemma ScanExact(db: Database, k: nat, cands: seq<seq<int>>, skip0: set<nat>, n: nat)
    requires SortedLines(db) && n <= |db|
    ensures var r := ScanLines(db, k, Dict(cands), Scan(Zeros(cands), skip0), n);
      && (forall c :: c in cands ==>
            r.freq[c] == if Increasing(c) && |c| == k then LiveSupport(db, skip0, c, n) else 0)
      && (forall l: nat :: l in r.skip <==> l in skip0 || (l < n && Dropped(db, k, cands, l)))
  {
    ScanSkipExact(db, k, cands, skip0, n);
    ScanFreqExact(db, k, cands, skip0, n);
  }

  /** The skip set after lines 0 .. n-1: the initial one and the dropped lines among them. */
  lemma {:induction false} ScanSkipExact(db: Database, k: nat, cands: seq<seq<int>>, skip0: set<nat>, n: nat)
    requires SortedLines(db) && n <= |db|
    ensures forall l: nat :: l in ScanLines(db, k, Dict(cands), Scan(Zeros(cands), skip0), n).skip <==>
      l in skip0 || (l < n && Dropped(db, k, cands, l))
  {
    if n > 0 {
      var st := ScanLines(db, k, Dict(cands), Scan(Zeros(cands), skip0), n - 1);
      ScanSkipExact(db, k, cands, skip0, n - 1);
      ScanSkipStep(db, k, cands, skip0, st, n - 1);
    }
  }

  /** One more line adds itself to the skip set exactly when it is dropped. */
  lemma ScanSkipStep(db: Database, k: nat, cands: seq<seq<int>>, skip0: set<nat>, st: Scan, l: nat)
    requires SortedLines(db) && l < |db|
    requires st.freq.Keys == set c | c in cands
    requires forall m: nat :: m in st.skip <==> m in skip0 || (m < l && Dropped(db, k, cands, m))
    ensures forall m: nat :: m in ScanLine(db, k, Dict(cands), st, l).skip <==>
      m in skip0 || (m < l + 1 && Dropped(db, k, cands, m))
  {
    ScanLineExact(db, k, cands, skip0, st, l);
  }

  /** The counts after lines 0 .. n-1: each canonical k-candidate's live support among them. */
  lemma {:induction false} ScanFreqExact(db: Database, k: nat, cands: seq<seq<int>>, skip0: set<nat>, n: nat)
    requires SortedLines(db) && n <= |db|
    ensures var r := ScanLines(db, k, Dict(cands), Scan(Zeros(cands), skip0), n);
      forall c :: c in cands ==>
        r.freq[c] == if Increasing(c) && |c| == k then LiveSupport(db, skip0, c, n) else 0
  {
    if n > 0 {
      var dict := Dict(cands);
      var st := ScanLines(db, k, dict, Scan(Zeros(cands), skip0), n - 1);
      ScanFreqExact(db, k, cands, skip0, n - 1);
      ScanFreqStep(db, k, cands, skip0, st, n - 1);
    }
  }

  /** One more line turns the live support among lines 0 .. l-1 into that among 0 .. l. */
  lemma ScanFreqStep(db: Database, k: nat, cands: seq<seq<int>>, skip0: set<nat>, st: Scan, l: nat)
    requires SortedLines(db) && l < |db|
    requires st.freq.Keys == set c | c in cands
    requires forall m :: m in st.skip ==> m in skip0 || m < l
    requires skip0 <= st.skip
    requires forall c :: c in cands ==>
      st.freq[c] == if Increasing(c) && |c| == k then LiveSupport(db, skip0, c, l) else 0
    ensures var r := ScanLine(db, k, Dict(cands), st, l);
      forall c :: c in cands ==>
        r.freq[c] == if Increasing(c) && |c| == k then LiveSupport(db, skip0, c, l + 1) else 0
  {
    ScanLineExact(db, k, cands, skip0, st, l);
  }

  /** The kept candidates are exactly those whose final count reaches the threshold. */
  lemma FrequentExactly(cands: seq<seq<int>>, freq: Table, threshold: int, order: seq<seq<int>>, frequent: seq<seq<int>>)
    requires freq.Keys == set c | c in cands
    requires order == Dedup(cands)
    requires forall c :: c in order ==> c in freq
    requires frequent == KeepAtLeast(order, freq, threshold)
    ensures forall c :: c in frequent <==> c in cands && freq[c] >= threshold
    ensures Distinct(frequent)
  {
    forall c ensures c in frequent <==> c in cands && freq[c] >= threshold {
      if c in frequent {
        var i :| 0 <= i < |frequent| && frequent[i] == c;
        var j :| 0 <= j < |order| && order[j] == c;
      }
      if c in cands && freq[c] >= threshold {
        var i :| 0 <= i < |cands| && cands[i] == c;
        var j :| 0 <= j < |order| && order[j] == c;
      }
    }
  }
}
