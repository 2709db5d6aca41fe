/**
 * The discrete skeleton of the C4.5 tree builder (Bayes/src/C45Classifier.java).
 *
 * The training database is a list of rows of string tokens, column 0 being the
 * class label. A node holds the indices of the rows it covers and the
 * attribute columns still available. A node becomes a leaf when its rows share
 * one label or no attribute is left (majority vote); otherwise it splits on
 * the attribute of highest gain ratio, one child per value of that attribute.
 * The gain ratio itself is floating-point arithmetic on logarithms, so the
 * model takes the score as a parameter; what is proved holds for every score.
 * Only one floating-point effect is kept: an attribute constant on the node's
 * rows has a NaN ratio and is never chosen, and when every remaining attribute
 * is such, the source throws (`BuildAsWritten`) where `Build` votes instead.
 */
module DecisionTree {
  import opened Collections

  type Row = seq<string>
  type Database = seq<Row>

  /** The tree: a leaf carries a decision, an inner node the split column and one child per value. */
  datatype Tree = Leaf(decision: string) | Split(feature: nat, children: map<string, Tree>)

  /** A node under construction: its remaining attribute columns and its rows. */
  datatype Node = Node(attributes: seq<nat>, dataIndex: seq<nat>)

  /** The score the builder maximises: the gain ratio of splitting these rows on this column. */
  type Score = (seq<nat>, nat) -> nat

  // ---------------------------------------------------------------------------
  // Well-formed inputs

  /**
   * At least one row, a label column in the first row, and no row narrower
   * than the first. The constructor takes the width from row 0 (line 24) and
   * only ever reads columns below it, so wider rows are harmless; an empty
   * database, or an empty first row, makes it throw at once.
   */
  predicate Rectangular(db: Database)
  {
    |db| > 0 && |db[0]| >= 1 && forall r :: 0 <= r < |db| ==> |db[r]| >= |db[0]|
  }

  function Width(db: Database): nat
    requires Rectangular(db)
  {
    |db[0]|
  }

  /** Every listed row index is a row of the database. */
  predicate ValidIndices(db: Database, idx: seq<nat>)
  {
    forall k :: 0 <= k < |idx| ==> idx[k] < |db|
  }

  /** Every listed attribute is a column of the database. */
  predicate ValidColumns(db: Database, attrs: seq<nat>)
    requires Rectangular(db)
  {
    forall k :: 0 <= k < |attrs| ==> attrs[k] < Width(db)
  }

  function Label(db: Database, i: nat): string
    requires Rectangular(db) && i < |db|
  {
    db[i][0]
  }

  /** The values column `f` takes on the listed rows. */
  function Values(db: Database, idx: seq<nat>, f: nat): set<string>
    requires Rectangular(db) && ValidIndices(db, idx) && f < Width(db)
  {
    set k | 0 <= k < |idx| :: db[idx[k]][f]
  }

  /** Column `f` of the listed rows, in list order. */
  function Column(db: Database, idx: seq<nat>, f: nat): (col: seq<string>)
    requires Rectangular(db) && ValidIndices(db, idx) && f < Width(db)
    ensures |col| == |idx|
  {
    if idx == [] then [] else [db[idx[0]][f]] + Column(db, idx[1..], f)
  }

  /** The listed rows whose column `f` holds `v`, in list order. */
  function Select(db: Database, idx: seq<nat>, f: nat, v: string): seq<nat>
    requires Rectangular(db) && ValidIndices(db, idx) && f < Width(db)
  {
    if idx == [] then []
    else (if db[idx[0]][f] == v then [idx[0]] else []) + Select(db, idx[1..], f, v)
  }

  // ---------------------------------------------------------------------------
  // Select, the reference for the partitions

  /** A row is selected exactly when it is listed and holds the value. */
  lemma {:induction false} SelectMember(db: Database, idx: seq<nat>, f: nat, v: string, j: nat)
    requires Rectangular(db) && ValidIndices(db, idx) && f < Width(db)
    ensures j in Select(db, idx, f, v) <==> j in idx && db[j][f] == v
  {
    if idx != [] {
      SelectMember(db, idx[1..], f, v, j);
      assert idx == [idx[0]] + idx[1..];
    }
  }

  /** The selected rows keep their relative order. */
  lemma {:induction false} SelectOrder(db: Database, idx: seq<nat>, f: nat, v: string)
    requires Rectangular(db) && ValidIndices(db, idx) && f < Width(db)
    ensures IsSubsequence(Select(db, idx, f, v), idx)
  {
    if idx != [] {
      SelectOrder(db, idx[1..], f, v);
      var s := Select(db, idx, f, v);
      if db[idx[0]][f] == v {
        assert s[0] == idx[0] && s[1..] == Select(db, idx[1..], f, v);
      } else {
        assert s == Select(db, idx[1..], f, v);
      }
    }
  }

  /** A listed row lands in its own value's selection as often as it is listed, and in no other. */
  lemma {:induction false} SelectMultiplicity(db: Database, idx: seq<nat>, f: nat, v: string, j: nat)
    requires Rectangular(db) && ValidIndices(db, idx) && f < Width(db) && j < |db|
    ensures multiset(Select(db, idx, f, v))[j] == if db[j][f] == v then multiset(idx)[j] else 0
  {
    if idx != [] {
      SelectMultiplicity(db, idx[1..], f, v, j);
      assert idx == [idx[0]] + idx[1..];
    }
  }

  /** The selection is empty exactly when no listed row holds the value. */
  lemma SelectEmpty(db: Database, idx: seq<nat>, f: nat, v: string)
    requires Rectangular(db) && ValidIndices(db, idx) && f < Width(db)
    ensures Select(db, idx, f, v) == [] <==> v !in Values(db, idx, f)
  {
    var s := Select(db, idx, f, v);
    if v in Values(db, idx, f) {
      var k :| 0 <= k < |idx| && db[idx[k]][f] == v;
      SelectMember(db, idx, f, v, idx[k]);
    }
    if s != [] {
      SelectMember(db, idx, f, v, s[0]);
      var k :| 0 <= k < |idx| && idx[k] == s[0];
    }
  }

  /** Selected rows are rows of the database. */
  lemma SelectValid(db: Database, idx: seq<nat>, f: nat, v: string)
    requires Rectangular(db) && ValidIndices(db, idx) && f < Width(db)
    ensures ValidIndices(db, Select(db, idx, f, v))
  {
    var s := Select(db, idx, f, v);
    forall k | 0 <= k < |s| ensures s[k] < |db| {
      SelectMember(db, idx, f, v, s[k]);
    }
  }

  /** Selecting from a list with one more row at the end. */
  lemma {:induction false} SelectSnoc(db: Database, idx: seq<nat>, i: nat, f: nat, v: string)
    requires Rectangular(db) && ValidIndices(db, idx) && i < |db| && f < Width(db)
    ensures ValidIndices(db, idx + [i])
    ensures Select(db, idx + [i], f, v) == Select(db, idx, f, v) + (if db[i][f] == v then [i] else [])
  {
    var s := idx + [i];
    assert s[|idx|] == i;
    if idx != [] {
      var rest := idx[1..];
      assert s[0] == idx[0] && s[1..] == rest + [i];
      SelectSnoc(db, rest, i, f, v);
      var head := if db[idx[0]][f] == v then [idx[0]] else [];
      var tail := if db[i][f] == v then [i] else [];
      assert Select(db, s, f, v) == head + Select(db, rest + [i], f, v);
      assert Select(db, idx, f, v) == head + Select(db, rest, f, v);
      assert head + (Select(db, rest, f, v) + tail) == (head + Select(db, rest, f, v)) + tail;
    }
  }

  /** The values of a list with one more row at the end. */
  lemma ValuesSnoc(db: Database, idx: seq<nat>, i: nat, f: nat)
    requires Rectangular(db) && ValidIndices(db, idx) && i < |db| && f < Width(db)
    ensures ValidIndices(db, idx + [i])
    ensures Values(db, idx + [i], f) == Values(db, idx, f) + {db[i][f]}
  {
    var s := idx + [i];
    assert s[|idx|] == i;
    forall x | x in Values(db, s, f) ensures x in Values(db, idx, f) + {db[i][f]} {
      var k :| 0 <= k < |s| && db[s[k]][f] == x;
      if k < |idx| {
        assert s[k] == idx[k];
      }
    }
    forall x | x in Values(db, idx, f) ensures x in Values(db, s, f) {
      var k :| 0 <= k < |idx| && db[idx[k]][f] == x;
      assert s[k] == idx[k];
    }
  }

  // ---------------------------------------------------------------------------
  // isHomogeneous

  /** Column `f` holds the first listed row's value on every listed row. */
  predicate Constant(db: Database, idx: seq<nat>, f: nat)
    requires Rectangular(db) && ValidIndices(db, idx) && idx != [] && f < Width(db)
  {
    forall k :: 0 <= k < |idx| ==> db[idx[k]][f] == db[idx[0]][f]
  }

  /** Every listed row carries the first listed row's label. */
  predicate Homogeneous(db: Database, idx: seq<nat>)
    requires Rectangular(db) && ValidIndices(db, idx) && idx != []
  {
    Constant(db, idx, 0)
  }

  /**
   * isHomogeneous, lines 87-95: compare every listed row's label with the
   * first one's, stopping at the first mismatch. The source reads
   * `dataIndex.get(0)` first, so the list must not be empty.
   */
  method IsHomogeneous(db: Database, idx: seq<nat>) returns (r: bool)
    requires Rectangular(db) && ValidIndices(db, idx) && idx != []
    ensures r <==> Homogeneous(db, idx)
    ensures r <==> Values(db, idx, 0) == {Label(db, idx[0])}
  {
    HomogeneousOneLabel(db, idx);
    var first := Label(db, idx[0]);
    var n := 0;
    while n < |idx|
      invariant 0 <= n <= |idx|
      invariant forall k :: 0 <= k < n ==> Label(db, idx[k]) == first
    {
      if Label(db, idx[n]) != first {
        return false;
      }
      n := n + 1;
    }
    return true;
  }

  /** A list of rows is homogeneous exactly when its rows show a single label. */
  lemma HomogeneousOneLabel(db: Database, idx: seq<nat>)
    requires Rectangular(db) && ValidIndices(db, idx) && idx != []
    ensures Homogeneous(db, idx) <==> Values(db, idx, 0) == {Label(db, idx[0])}
  {
    var vs := Values(db, idx, 0);
    assert Label(db, idx[0]) in vs;
    if vs == {Label(db, idx[0])} {
      forall k | 0 <= k < |idx| ensures Label(db, idx[k]) == Label(db, idx[0]) {
        assert db[idx[k]][0] in vs;
      }
    }
  }

  // ---------------------------------------------------------------------------
  // getPartitions and partitionBasedOnFeature

  /**
   * getPartitions, lines 267-280: walk the rows in order and append each to
   * the list under its value of column `f`, creating the list on first sight.
   */
  function GetPartitions(db: Database, idx: seq<nat>, f: nat): (parts: map<string, seq<nat>>)
    requires Rectangular(db) && ValidIndices(db, idx) && f < Width(db)
    ensures parts.Keys == Values(db, idx, f)
    ensures forall v :: v in parts ==> parts[v] == Select(db, idx, f, v)
  {
    if idx == [] then map[]
    else
      var init := idx[..|idx| - 1];
      var i := idx[|idx| - 1];
      var v := db[i][f];
      assert idx == init + [i];
      var parts := GetPartitions(db, init, f);
      ValuesSnoc(db, init, i, f);
      SelectSnocAll(db, init, i, f);
      SelectEmpty(db, init, f, v);
      if v in parts then parts[v := parts[v] + [i]] else parts[v := [i]]
  }

  lemma SelectSnocAll(db: Database, idx: seq<nat>, i: nat, f: nat)
    requires Rectangular(db) && ValidIndices(db, idx) && i < |db| && f < Width(db)
    ensures ValidIndices(db, idx + [i])
    ensures forall v :: Select(db, idx + [i], f, v) == Select(db, idx, f, v) + (if db[i][f] == v then [i] else [])
  {
    forall v ensures Select(db, idx + [i], f, v) == Select(db, idx, f, v) + (if db[i][f] == v then [i] else []) {
      SelectSnoc(db, idx, i, f, v);
    }
  }

  /** Each of the node's rows is in the list under its own value of column `f`. */
  lemma PartitionsCover(db: Database, idx: seq<nat>, f: nat)
    requires Rectangular(db) && ValidIndices(db, idx) && f < Width(db)
    ensures var parts := GetPartitions(db, idx, f);
      forall k :: 0 <= k < |idx| ==> db[idx[k]][f] in parts && idx[k] in parts[db[idx[k]][f]]
  {
    var parts := GetPartitions(db, idx, f);
    forall k | 0 <= k < |idx| ensures db[idx[k]][f] in parts && idx[k] in parts[db[idx[k]][f]] {
      SelectMember(db, idx, f, db[idx[k]][f], idx[k]);
    }
  }

  /** A list holds only the node's rows with that list's value, so no row is in two lists. */
  lemma PartitionsExclusive(db: Database, idx: seq<nat>, f: nat, v: string, j: nat)
    requires Rectangular(db) && ValidIndices(db, idx) && f < Width(db)
    requires v in GetPartitions(db, idx, f) && j in GetPartitions(db, idx, f)[v]
    ensures j in idx && j < |db| && db[j][f] == v
  {
    SelectMember(db, idx, f, v, j);
    var k :| 0 <= k < |idx| && idx[k] == j;
  }

  /** Every list is non-empty and keeps the rows in their original order. */
  lemma PartitionsOrdered(db: Database, idx: seq<nat>, f: nat)
    requires Rectangular(db) && ValidIndices(db, idx) && f < Width(db)
    ensures var parts := GetPartitions(db, idx, f);
      forall v :: v in parts ==> parts[v] != [] && IsSubsequence(parts[v], idx)
  {
    var parts := GetPartitions(db, idx, f);
    forall v | v in parts ensures parts[v] != [] && IsSubsequence(parts[v], idx) {
      SelectEmpty(db, idx, f, v);
      SelectOrder(db, idx, f, v);
    }
  }

  /** `List.remove(Object)`: drop the first occurrence of `x`, if any. */
  function RemoveFirst(s: seq<nat>, x: nat): (r: seq<nat>)
    ensures multiset(r) == multiset(s) - multiset{x}
  {
    if s == [] then []
    else if s[0] == x then
      assert s == [x] + s[1..];
      s[1..]
    else
      assert s == [s[0]] + s[1..];
      [s[0]] + RemoveFirst(s[1..], x)
  }

  /**
   * `RemoveFirst` cuts out exactly the element at the first index of `x`: the
   * items before it stay in place and the items after it move down by one. A
   * list without `x` is left unchanged.
   */
  lemma RemoveFirstSplit(s: seq<nat>, x: nat)
    ensures x !in s ==> RemoveFirst(s, x) == s
    ensures x in s ==> var i, r := IndexOf(s, x), RemoveFirst(s, x);
      && |r| == |s| - 1
      && (forall k :: 0 <= k < i ==> r[k] == s[k])
      && (forall k :: i <= k < |r| ==> r[k] == s[k + 1])
  {
    if x in s {
      RemoveFirstPresent(s, x);
    } else {
      RemoveFirstAbsent(s, x);
    }
  }

  lemma {:induction false} RemoveFirstAbsent(s: seq<nat>, x: nat)
    requires x !in s
    ensures RemoveFirst(s, x) == s
  {
    if s != [] {
      assert s == [s[0]] + s[1..];
      RemoveFirstAbsent(s[1..], x);
    }
  }

  lemma {:induction false} RemoveFirstPresent(s: seq<nat>, x: nat)
    requires x in s
    ensures var i, r := IndexOf(s, x), RemoveFirst(s, x);
      && |r| == |s| - 1
      && (forall k :: 0 <= k < i ==> r[k] == s[k])
      && (forall k :: i <= k < |r| ==> r[k] == s[k + 1])
  {
    if s[0] != x {
      var t := s[1..];
      assert s == [s[0]] + t;
      assert x in t;
      RemoveFirstPresent(t, x);
      var r, r' := RemoveFirst(s, x), RemoveFirst(t, x);
      assert r == [s[0]] + r';
      var i := IndexOf(t, x);
      assert IndexOf(s, x) == i + 1;
      forall k | 0 < k < i + 1 ensures r[k] == s[k] {
        assert r[k] == r'[k - 1] == t[k - 1];
      }
      forall k | i + 1 <= k < |r| ensures r[k] == s[k + 1] {
        assert r[k] == r'[k - 1] == t[k];
      }
    }
  }

  /** Removing a listed attribute shortens the list by one; every other attribute stays. */
  lemma RemoveFirstFacts(s: seq<nat>, x: nat)
    requires x in s
    ensures |RemoveFirst(s, x)| == |s| - 1
    ensures forall y :: y in s && y != x ==> y in RemoveFirst(s, x)
  {
    var r := RemoveFirst(s, x);
    assert |r| == |multiset(r)| == |multiset(s)| - 1;
    forall y | y in s && y != x ensures y in r {
      assert multiset(r)[y] == multiset(s)[y] > 0;
    }
  }

  /** Removing an attribute leaves only columns of the database. */
  lemma RemoveFirstValid(db: Database, s: seq<nat>, x: nat)
    requires Rectangular(db) && ValidColumns(db, s)
    ensures ValidColumns(db, RemoveFirst(s, x))
  {
    var r := RemoveFirst(s, x);
    forall k | 0 <= k < |r| ensures r[k] < Width(db) {
      assert r[k] in multiset(r);
      assert r[k] in s;
      var p :| 0 <= p < |s| && s[p] == r[k];
    }
  }

  /**
   * partitionBasedOnFeature, lines 246-260: one child per value of column
   * `f`, holding the rows with that value and the node's attributes with `f`
   * removed.
   */
  function PartitionBasedOnFeature(db: Database, node: Node, f: nat): (children: map<string, Node>)
    requires Rectangular(db) && ValidIndices(db, node.dataIndex) && f < Width(db)
    ensures children.Keys == Values(db, node.dataIndex, f)
    ensures forall v :: v in children ==>
      children[v].dataIndex == Select(db, node.dataIndex, f, v) &&
      children[v].attributes == RemoveFirst(node.attributes, f) &&
      multiset(children[v].attributes) == multiset(node.attributes) - multiset{f}
  {
    var parts := GetPartitions(db, node.dataIndex, f);
    var attrs := RemoveFirst(node.attributes, f);
    map v | v in parts :: Node(attrs, parts[v])
  }

  /** Every child covers a non-empty set of valid rows, and, when `f` was an attribute, one attribute fewer. */
  lemma ChildrenFacts(db: Database, node: Node, f: nat)
    requires Rectangular(db) && ValidIndices(db, node.dataIndex) && f < Width(db)
    requires ValidColumns(db, node.attributes)
    ensures forall v :: v in PartitionBasedOnFeature(db, node, f) ==>
      var child := PartitionBasedOnFeature(db, node, f)[v];
      child.dataIndex != [] && ValidIndices(db, child.dataIndex) && ValidColumns(db, child.attributes) &&
      (f in node.attributes ==> |child.attributes| == |node.attributes| - 1)
  {
    var children := PartitionBasedOnFeature(db, node, f);
    RemoveFirstValid(db, node.attributes, f);
    if f in node.attributes {
      RemoveFirstFacts(node.attributes, f);
    }
    forall v | v in children
      ensures children[v].dataIndex != [] && ValidIndices(db, children[v].dataIndex)
    {
      SelectEmpty(db, node.dataIndex, f, v);
      SelectValid(db, node.dataIndex, f, v);
    }
  }

  // ---------------------------------------------------------------------------
  // Choosing: the majority vote and the split attribute

  /**
   * The loops at lines 55-62 and 68-76: walk the list, pass over entries
   * without a weight, take the first weighted entry and replace the choice
   * only by a strictly heavier one. The result is the first entry of
   * greatest weight, or nothing when no entry has a weight.
   */
  function ScanMax<T(==)>(xs: seq<T>, w: map<T, nat>): (r: Option<T>)
    ensures r.None? <==> forall k :: 0 <= k < |xs| ==> xs[k] !in w
    ensures r.Some? ==> r.value in xs && r.value in w
    ensures r.Some? ==> forall k :: 0 <= k < |xs| && xs[k] in w ==> w[xs[k]] <= w[r.value]
    ensures r.Some? ==> forall k :: 0 <= k < IndexOf(xs, r.value) && xs[k] in w ==> w[xs[k]] < w[r.value]
  {
    if xs == [] then None
    else
      var init := xs[..|xs| - 1];
      var x := xs[|xs| - 1];
      assert xs == init + [x];
      var m := ScanMax(init, w);
      if m.None? then
        if x in w then
          TakeLast(init, x, w);
          Some(x)
        else None
      else if x in w && w[x] > w[m.value] then
        TakeLast(init, x, w);
        Some(x)
      else
        KeepEarlier(init, x, w, m.value);
        m
  }

  /** A weighted last entry heavier than every weighted entry before it is the first heaviest. */
  lemma TakeLast<T>(init: seq<T>, x: T, w: map<T, nat>)
    requires x in w
    requires forall k :: 0 <= k < |init| && init[k] in w ==> w[init[k]] < w[x]
    ensures forall k :: 0 <= k < |init + [x]| && (init + [x])[k] in w ==> w[(init + [x])[k]] <= w[x]
    ensures forall k :: 0 <= k < IndexOf(init + [x], x) && (init + [x])[k] in w ==> w[(init + [x])[k]] < w[x]
  {
    var xs := init + [x];
    forall k | 0 <= k < IndexOf(xs, x) && xs[k] in w ensures w[xs[k]] < w[x] {
      assert xs[k] == init[k];
    }
  }

  /** The first heaviest entry of all but the last stays so when the last is no heavier. */
  lemma KeepEarlier<T>(init: seq<T>, x: T, w: map<T, nat>, v: T)
    requires v in init && v in w
    requires forall k :: 0 <= k < |init| && init[k] in w ==> w[init[k]] <= w[v]
    requires forall k :: 0 <= k < IndexOf(init, v) && init[k] in w ==> w[init[k]] < w[v]
    requires !(x in w && w[x] > w[v])
    ensures forall k :: 0 <= k < |init + [x]| && (init + [x])[k] in w ==> w[(init + [x])[k]] <= w[v]
    ensures forall k :: 0 <= k < IndexOf(init + [x], v) && (init + [x])[k] in w ==> w[(init + [x])[k]] < w[v]
  {
    var xs := init + [x];
    assert xs[..|xs| - 1] == init;
    IndexOfPrefix(xs, v);
    forall k | 0 <= k < |xs| && xs[k] in w ensures w[xs[k]] <= w[v] {
      if k < |init| {
        assert xs[k] == init[k];
      }
    }
    forall k | 0 <= k < IndexOf(xs, v) && xs[k] in w ensures w[xs[k]] < w[v] {
      assert xs[k] == init[k];
    }
  }

  /** An element of a proper prefix is first found at the same place in the whole list. */
  lemma IndexOfPrefix<T>(xs: seq<T>, x: T)
    requires xs != [] && x in xs[..|xs| - 1]
    ensures IndexOf(xs, x) == IndexOf(xs[..|xs| - 1], x)
  {
    var init := xs[..|xs| - 1];
    var i := IndexOf(init, x);
    assert xs[i] == x;
    forall j | 0 <= j < i ensures xs[j] != x {
      assert xs[j] == init[j];
    }
  }

  /** The number of the listed rows labelled `l`. */
  function LabelCount(db: Database, idx: seq<nat>, l: string): nat
    requires Rectangular(db) && ValidIndices(db, idx)
  {
    |Select(db, idx, 0, l)|
  }

  /** A label's count in the label column is the number of rows selected by it. */
  lemma {:induction false} ColumnCount(db: Database, idx: seq<nat>, l: string)
    requires Rectangular(db) && ValidIndices(db, idx)
    ensures multiset(Column(db, idx, 0))[l] == LabelCount(db, idx, l)
  {
    if idx != [] {
      ColumnCount(db, idx[1..], l);
      assert Column(db, idx, 0) == [db[idx[0]][0]] + Column(db, idx[1..], 0);
    }
  }

  lemma ColumnValues(db: Database, idx: seq<nat>, f: nat)
    requires Rectangular(db) && ValidIndices(db, idx) && f < Width(db)
    ensures forall k :: 0 <= k < |idx| ==> Column(db, idx, f)[k] == db[idx[k]][f]
  {
    if idx != [] {
      ColumnValues(db, idx[1..], f);
    }
  }

  /**
   * The majority vote, lines 45-63: count the labels of the node's rows in a
   * hash map, then take the first entry, in the map's iteration order, whose
   * count no later entry exceeds. The result is a label of one of the rows and
   * no label is carried by more of them.
   */
  function Majority(db: Database, idx: seq<nat>): (r: string)
    requires Rectangular(db) && ValidIndices(db, idx) && idx != []
    ensures r in Values(db, idx, 0)
    ensures forall k :: 0 <= k < |idx| ==> LabelCount(db, idx, Label(db, idx[k])) <= LabelCount(db, idx, r)
    ensures var order := CountAll(Column(db, idx, 0)).order;
      forall k :: 0 <= k < IndexOf(order, r) ==> LabelCount(db, idx, order[k]) < LabelCount(db, idx, r)
  {
    var c := CountAll(Column(db, idx, 0));
    MajorityPicked(db, idx);
    MajorityBeats(db, idx);
    MajorityFirst(db, idx);
    ScanMax(c.order, c.counts).value
  }

  /** The scan over the counted labels picks one of the node's labels. */
  lemma MajorityPicked(db: Database, idx: seq<nat>)
    requires Rectangular(db) && ValidIndices(db, idx) && idx != []
    ensures var c := CountAll(Column(db, idx, 0));
      && ScanMax(c.order, c.counts).Some?
      && ScanMax(c.order, c.counts).value in Values(db, idx, 0)
  {
    var c := CountAll(Column(db, idx, 0));
    MajorityCounts(db, idx);
    MajorityOrderCounted(db, idx);
    assert c.order[0] in c.counts;
  }

  /** No label of the node's rows is carried by more rows than the picked one. */
  lemma MajorityBeats(db: Database, idx: seq<nat>)
    requires Rectangular(db) && ValidIndices(db, idx) && idx != []
    ensures var c := CountAll(Column(db, idx, 0));
      && ScanMax(c.order, c.counts).Some?
      && forall k :: 0 <= k < |idx| ==>
           LabelCount(db, idx, Label(db, idx[k])) <= LabelCount(db, idx, ScanMax(c.order, c.counts).value)
  {
    var c := CountAll(Column(db, idx, 0));
    MajorityBeatsAt(db, idx, 0);
    var r := ScanMax(c.order, c.counts).value;
    forall k | 0 <= k < |idx| ensures LabelCount(db, idx, Label(db, idx[k])) <= LabelCount(db, idx, r) {
      MajorityBeatsAt(db, idx, k);
    }
  }

  lemma MajorityBeatsAt(db: Database, idx: seq<nat>, k: nat)
    requires Rectangular(db) && ValidIndices(db, idx) && k < |idx|
    ensures var c := CountAll(Column(db, idx, 0));
      && ScanMax(c.order, c.counts).Some?
      && LabelCount(db, idx, Label(db, idx[k])) <= LabelCount(db, idx, ScanMax(c.order, c.counts).value)
  {
    var labels := Column(db, idx, 0);
    LabelCounts(db, idx);
    ColumnValues(db, idx, 0);
    CountAllMaxBeats(labels, k);
    assert labels[k] == Label(db, idx[k]);
  }

  /** The first heaviest entry of a counter weighs at least as much as any counted element. */
  lemma CountAllMaxBeats<T>(xs: seq<T>, i: nat)
    requires i < |xs|
    ensures var c := CountAll(xs);
      && ScanMax(c.order, c.counts).Some?
      && xs[i] in c.counts
      && c.counts[xs[i]] <= c.counts[ScanMax(c.order, c.counts).value]
  {
    var c := CountAll(xs);
    var p :| 0 <= p < |c.order| && c.order[p] == xs[i];
  }

  /** Every label met before the picked one in iteration order is carried by fewer rows. */
  lemma MajorityFirst(db: Database, idx: seq<nat>)
    requires Rectangular(db) && ValidIndices(db, idx) && idx != []
    ensures var c := CountAll(Column(db, idx, 0));
      && ScanMax(c.order, c.counts).Some?
      && var r := ScanMax(c.order, c.counts).value;
         forall k :: 0 <= k < IndexOf(c.order, r) ==> LabelCount(db, idx, c.order[k]) < LabelCount(db, idx, r)
  {
    var c := CountAll(Column(db, idx, 0));
    MajorityCounts(db, idx);
    MajorityOrderCounted(db, idx);
    assert c.order[0] in c.counts;
  }

  lemma MajorityOrderCounted(db: Database, idx: seq<nat>)
    requires Rectangular(db) && ValidIndices(db, idx) && idx != []
    ensures var c := CountAll(Column(db, idx, 0));
      c.order != [] && forall k :: 0 <= k < |c.order| ==> c.order[k] in c.counts
  {
    var labels := Column(db, idx, 0);
    var c := CountAll(labels);
    assert labels[0] in c.order;
    forall k | 0 <= k < |c.order| ensures c.order[k] in c.counts {
      var m :| 0 <= m < |labels| && labels[m] == c.order[k];
    }
  }

  /** The counter over the label column holds each label's row count. */
  lemma LabelCounts(db: Database, idx: seq<nat>)
    requires Rectangular(db) && ValidIndices(db, idx)
    ensures var c := CountAll(Column(db, idx, 0));
      forall l :: l in c.counts ==> c.counts[l] == LabelCount(db, idx, l)
  {
    forall l | l in CountAll(Column(db, idx, 0)).counts
      ensures CountAll(Column(db, idx, 0)).counts[l] == LabelCount(db, idx, l)
    {
      ColumnCount(db, idx, l);
    }
  }

  lemma MajorityCounts(db: Database, idx: seq<nat>)
    requires Rectangular(db) && ValidIndices(db, idx)
    ensures var c := CountAll(Column(db, idx, 0));
      && (forall l :: l in c.counts ==> c.counts[l] == LabelCount(db, idx, l))
      && (forall l :: l in c.order <==> l in Values(db, idx, 0))
  {
    LabelCounts(db, idx);
    forall l ensures l in CountAll(Column(db, idx, 0)).order <==> l in Values(db, idx, 0) {
      LabelOrdered(db, idx, l);
    }
  }

  /** A label is listed by the counter exactly when some row of the node carries it. */
  lemma LabelOrdered(db: Database, idx: seq<nat>, l: string)
    requires Rectangular(db) && ValidIndices(db, idx)
    ensures l in CountAll(Column(db, idx, 0)).order <==> l in Values(db, idx, 0)
  {
    if l in CountAll(Column(db, idx, 0)).order {
      OrderedIsValue(db, idx, l);
    }
    if l in Values(db, idx, 0) {
      ValueIsOrdered(db, idx, l);
    }
  }

  lemma OrderedIsValue(db: Database, idx: seq<nat>, l: string)
    requires Rectangular(db) && ValidIndices(db, idx)
    requires l in CountAll(Column(db, idx, 0)).order
    ensures l in Values(db, idx, 0)
  {
    var labels := Column(db, idx, 0);
    var order := CountAll(labels).order;
    var i :| 0 <= i < |order| && order[i] == l;
    assert l in labels;
    var k :| 0 <= k < |labels| && labels[k] == l;
    ColumnValues(db, idx, 0);
    assert db[idx[k]][0] == l;
  }

  lemma ValueIsOrdered(db: Database, idx: seq<nat>, l: string)
    requires Rectangular(db) && ValidIndices(db, idx)
    requires l in Values(db, idx, 0)
    ensures l in CountAll(Column(db, idx, 0)).order
  {
    var labels := Column(db, idx, 0);
    var k :| 0 <= k < |idx| && db[idx[k]][0] == l;
    ColumnValues(db, idx, 0);
    assert labels[k] == l;
    var order := CountAll(labels).order;
    assert labels[k] in order;
  }

  /**
   * The gain ratios the split loop compares, lines 68-76 and 187-203. A column
   * constant on the node's rows forms one partition of weight 1, so its split
   * information is -0.0 and its ratio 0.0 / -0.0 is NaN, which no comparison
   * selects: it gets no entry. Any other attribute gets its score.
   */
  function Ratios(db: Database, idx: seq<nat>, attrs: seq<nat>, score: Score): (w: map<nat, nat>)
    requires Rectangular(db) && ValidIndices(db, idx) && idx != [] && ValidColumns(db, attrs)
    ensures forall k :: 0 <= k < |attrs| ==> (attrs[k] in w <==> !Constant(db, idx, attrs[k]))
    ensures forall a :: a in w ==> a in attrs && w[a] == score(idx, a)
  {
    map a | a in attrs && a < Width(db) && !Constant(db, idx, a) :: score(idx, a)
  }

  /**
   * The split choice, lines 68-76: from ratio -1 and attribute -1, take each
   * attribute whose ratio is strictly greater. A ratio that is not NaN is
   * non-negative and beats -1; NaN beats nothing. So the choice is the first
   * attribute of greatest score among those not constant on the node's rows,
   * and None, the source's -1, when every attribute is constant there.
   */
  function PickSplit(db: Database, idx: seq<nat>, attrs: seq<nat>, score: Score): (r: Option<nat>)
    requires Rectangular(db) && ValidIndices(db, idx) && idx != [] && ValidColumns(db, attrs)
    ensures r.None? <==> forall k :: 0 <= k < |attrs| ==> Constant(db, idx, attrs[k])
    ensures r.Some? ==> r.value in attrs && r.value < Width(db) && !Constant(db, idx, r.value)
    ensures r.Some? ==> forall k :: 0 <= k < |attrs| && !Constant(db, idx, attrs[k]) ==>
      score(idx, attrs[k]) <= score(idx, r.value)
    ensures r.Some? ==> forall k :: 0 <= k < IndexOf(attrs, r.value) && !Constant(db, idx, attrs[k]) ==>
      score(idx, attrs[k]) < score(idx, r.value)
  {
    var w := Ratios(db, idx, attrs, score);
    var r := ScanMax(attrs, w);
    if r.Some? then
      var k :| 0 <= k < |attrs| && attrs[k] == r.value;
      r
    else r
  }

  // ---------------------------------------------------------------------------
  // Building the tree

  /**
   * The build loop of the constructor, lines 32-84, for one node and all its
   * descendants, with a majority leaf wherever no attribute can split the
   * node: when none is left, as in the source, and also when every remaining
   * one is constant on the node's rows, where the source throws
   * (`BuildAsWritten`). The loop handles a level of nodes at a time, but nodes
   * do not interact, so building each subtree recursively gives the same tree.
   */
  function Build(db: Database, attrs: seq<nat>, idx: seq<nat>, score: Score): (t: Tree)
    requires Rectangular(db) && ValidIndices(db, idx) && idx != [] && ValidColumns(db, attrs)
    ensures t.Leaf? ==> t.decision in Values(db, idx, 0)
    ensures t.Split? ==> t.feature in attrs && t.feature < Width(db) && !Constant(db, idx, t.feature)
    ensures t.Split? ==> t.children.Keys == Values(db, idx, t.feature)
    decreases |attrs|
  {
    if Homogeneous(db, idx) then
      assert Label(db, idx[0]) in Values(db, idx, 0);
      Leaf(Label(db, idx[0]))
    else
      match PickSplit(db, idx, attrs, score)
      case None => Leaf(Majority(db, idx))
      case Some(f) =>
        var children := PartitionBasedOnFeature(db, Node(attrs, idx), f);
        ChildrenFacts(db, Node(attrs, idx), f);
        Split(f, map v | v in children :: Build(db, children[v].attributes, children[v].dataIndex, score))
  }

  /**
   * The build loop as the source writes it. When no attribute is left the
   * node takes the majority vote; but when attributes remain and all of them
   * are constant on the node's rows, the split loop leaves the attribute at
   * -1, and `partitionBasedOnFeature(-1)` reads column -1 of a row, which
   * throws, so the constructor fails. None stands for that exception.
   */
  function BuildAsWritten(db: Database, attrs: seq<nat>, idx: seq<nat>, score: Score): (t: Option<Tree>)
    requires Rectangular(db) && ValidIndices(db, idx) && idx != [] && ValidColumns(db, attrs)
    ensures !Homogeneous(db, idx) && attrs != [] && (forall k :: 0 <= k < |attrs| ==> Constant(db, idx, attrs[k])) ==>
      t.None?
    decreases |attrs|
  {
    if Homogeneous(db, idx) then Some(Leaf(Label(db, idx[0])))
    else if attrs == [] then Some(Leaf(Majority(db, idx)))
    else
      match PickSplit(db, idx, attrs, score)
      case None => None
      case Some(f) =>
        var children := PartitionBasedOnFeature(db, Node(attrs, idx), f);
        ChildrenFacts(db, Node(attrs, idx), f);
        var kids := map v | v in children :: BuildAsWritten(db, children[v].attributes, children[v].dataIndex, score);
        if forall v :: v in kids ==> kids[v].Some? then Some(Split(f, map v | v in kids :: kids[v].value))
        else None
  }

  /** Whenever the source's build does not throw, it builds the same tree as `Build`. */
  lemma {:induction false} AsWrittenAgrees(db: Database, attrs: seq<nat>, idx: seq<nat>, score: Score)
    requires Rectangular(db) && ValidIndices(db, idx) && idx != [] && ValidColumns(db, attrs)
    ensures BuildAsWritten(db, attrs, idx, score).Some? ==>
      BuildAsWritten(db, attrs, idx, score).value == Build(db, attrs, idx, score)
    decreases |attrs|
  {
    var w := BuildAsWritten(db, attrs, idx, score);
    if w.None? || Homogeneous(db, idx) {
    } else if PickSplit(db, idx, attrs, score).None? {
      assert w.value == Leaf(Majority(db, idx));
    } else {
      var f := PickSplit(db, idx, attrs, score).value;
      var children := PartitionBasedOnFeature(db, Node(attrs, idx), f);
      BuildSplit(db, attrs, idx, score);
      forall v | v in children
        ensures BuildAsWritten(db, children[v].attributes, children[v].dataIndex, score).Some? ==>
          BuildAsWritten(db, children[v].attributes, children[v].dataIndex, score).value ==
          Build(db, children[v].attributes, children[v].dataIndex, score)
      {
        AsWrittenAgrees(db, children[v].attributes, children[v].dataIndex, score);
      }
      SplitsAgree(db, attrs, idx, score);
    }
  }

  /** The split case of `AsWrittenAgrees`: children that agree make parents that agree. */
  lemma {:induction false} SplitsAgree(db: Database, attrs: seq<nat>, idx: seq<nat>, score: Score)
    requires Rectangular(db) && ValidIndices(db, idx) && idx != [] && ValidColumns(db, attrs)
    requires !Homogeneous(db, idx) && PickSplit(db, idx, attrs, score).Some?
    requires BuildAsWritten(db, attrs, idx, score).Some?
    requires var children := PartitionBasedOnFeature(db, Node(attrs, idx), PickSplit(db, idx, attrs, score).value);
      forall v :: v in children ==>
        children[v].dataIndex != [] && ValidIndices(db, children[v].dataIndex) &&
        ValidColumns(db, children[v].attributes) &&
        (BuildAsWritten(db, children[v].attributes, children[v].dataIndex, score).Some? ==>
           BuildAsWritten(db, children[v].attributes, children[v].dataIndex, score).value ==
           Build(db, children[v].attributes, children[v].dataIndex, score))
    ensures BuildAsWritten(db, attrs, idx, score).value == Build(db, attrs, idx, score)
  {
    var w := BuildAsWritten(db, attrs, idx, score).value;
    var t := Build(db, attrs, idx, score);
    SplitShapesAgree(db, attrs, idx, score);
    forall v | v in t.children ensures w.children[v] == t.children[v] {
      ChildAgrees(db, attrs, idx, score, v);
    }
    SameSplit(w, t);
  }

  /** Two splits on one attribute with equal children are one tree. */
  lemma SameSplit(w: Tree, t: Tree)
    requires w.Split? && t.Split? && w.feature == t.feature && w.children.Keys == t.children.Keys
    requires forall v :: v in t.children ==> w.children[v] == t.children[v]
    ensures w == t
  {
    assert w.children == t.children;
  }

  /** Both builds split on the same attribute into the same values. */
  lemma {:induction false} SplitShapesAgree(db: Database, attrs: seq<nat>, idx: seq<nat>, score: Score)
    requires Rectangular(db) && ValidIndices(db, idx) && idx != [] && ValidColumns(db, attrs)
    requires !Homogeneous(db, idx) && PickSplit(db, idx, attrs, score).Some?
    requires BuildAsWritten(db, attrs, idx, score).Some?
    ensures var w := BuildAsWritten(db, attrs, idx, score).value;
      var t := Build(db, attrs, idx, score);
      && w.Split? && t.Split? && w.feature == t.feature
      && w.children.Keys == t.children.Keys
      && t.children.Keys == PartitionBasedOnFeature(db, Node(attrs, idx), PickSplit(db, idx, attrs, score).value).Keys
  {
    BuildSplit(db, attrs, idx, score);
    AsWrittenSplit(db, attrs, idx, score);
  }

  /** One value's child: where the source's build completes it, it equals the corrected one. */
  lemma {:induction false} ChildAgrees(db: Database, attrs: seq<nat>, idx: seq<nat>, score: Score, v: string)
    requires Rectangular(db) && ValidIndices(db, idx) && idx != [] && ValidColumns(db, attrs)
    requires !Homogeneous(db, idx) && PickSplit(db, idx, attrs, score).Some?
    requires BuildAsWritten(db, attrs, idx, score).Some?
    requires v in PartitionBasedOnFeature(db, Node(attrs, idx), PickSplit(db, idx, attrs, score).value)
    requires var kid := PartitionBasedOnFeature(db, Node(attrs, idx), PickSplit(db, idx, attrs, score).value)[v];
      && kid.dataIndex != [] && ValidIndices(db, kid.dataIndex) && ValidColumns(db, kid.attributes)
      && (BuildAsWritten(db, kid.attributes, kid.dataIndex, score).Some? ==>
            BuildAsWritten(db, kid.attributes, kid.dataIndex, score).value == Build(db, kid.attributes, kid.dataIndex, score))
    ensures var w := BuildAsWritten(db, attrs, idx, score).value;
      var t := Build(db, attrs, idx, score);
      w.Split? && t.Split? && v in w.children && v in t.children && w.children[v] == t.children[v]
  {
    var kid := PartitionBasedOnFeature(db, Node(attrs, idx), PickSplit(db, idx, attrs, score).value)[v];
    BuildSplit(db, attrs, idx, score);
    AsWrittenSplit(db, attrs, idx, score);
    assert BuildAsWritten(db, kid.attributes, kid.dataIndex, score).Some?;
  }

  /** A split the source's build completes: every child was completed too, and holds what it built. */
  lemma AsWrittenSplit(db: Database, attrs: seq<nat>, idx: seq<nat>, score: Score)
    requires Rectangular(db) && ValidIndices(db, idx) && idx != [] && ValidColumns(db, attrs)
    requires !Homogeneous(db, idx) && PickSplit(db, idx, attrs, score).Some?
    requires BuildAsWritten(db, attrs, idx, score).Some?
    ensures var w := BuildAsWritten(db, attrs, idx, score).value;
      var f := PickSplit(db, idx, attrs, score).value;
      var children := PartitionBasedOnFeature(db, Node(attrs, idx), f);
      && w.Split? && w.feature == f && w.children.Keys == children.Keys
      && forall v :: v in children ==>
           children[v].dataIndex != [] && ValidIndices(db, children[v].dataIndex) &&
           ValidColumns(db, children[v].attributes) &&
           BuildAsWritten(db, children[v].attributes, children[v].dataIndex, score).Some? &&
           w.children[v] == BuildAsWritten(db, children[v].attributes, children[v].dataIndex, score).value
  {
    var f := PickSplit(db, idx, attrs, score).value;
    ChildrenFacts(db, Node(attrs, idx), f);
  }

  /** An inner node: its split column is the chosen attribute and each value's child is built from that value's rows. */
  lemma BuildSplit(db: Database, attrs: seq<nat>, idx: seq<nat>, score: Score)
    requires Rectangular(db) && ValidIndices(db, idx) && idx != [] && ValidColumns(db, attrs)
    requires !Homogeneous(db, idx) && PickSplit(db, idx, attrs, score).Some?
    ensures var t := Build(db, attrs, idx, score);
      var f := PickSplit(db, idx, attrs, score).value;
      var children := PartitionBasedOnFeature(db, Node(attrs, idx), f);
      && t.Split? && t.feature == f && t.children.Keys == children.Keys
      && forall v :: v in children ==>
           children[v].dataIndex != [] && ValidIndices(db, children[v].dataIndex) &&
           ValidColumns(db, children[v].attributes) && |children[v].attributes| < |attrs| &&
           t.children[v] == Build(db, children[v].attributes, children[v].dataIndex, score)
  {
    var f := PickSplit(db, idx, attrs, score).value;
    ChildrenFacts(db, Node(attrs, idx), f);
  }

  /** The columns `lo`, ..., `hi - 1`. */
  function Range(lo: nat, hi: nat): (r: seq<nat>)
    ensures |r| == if lo <= hi then hi - lo else 0
    ensures forall k :: 0 <= k < |r| ==> r[k] == lo + k
    decreases hi - lo
  {
    if lo >= hi then [] else [lo] + Range(lo + 1, hi)
  }

  /**
   * The constructor, lines 13-30: the root covers every row and every column
   * after the label. The tree splits at most once per attribute column, and
   * it classifies every training row.
   */
  function Classifier(db: Database, score: Score): (t: Tree)
    requires Rectangular(db)
    ensures DepthAtMost(t, Width(db) - 1)
    ensures forall i :: 0 <= i < |db| ==> Test(t, db[i]).Some?
  {
    var attrs := Range(1, Width(db));
    var idx := Range(0, |db|);
    RootValid(db);
    BuildDepth(db, attrs, idx, score);
    TrainingRowsClassified(db, attrs, idx, score);
    Build(db, attrs, idx, score)
  }

  /** The classifier as the source builds it: None when the constructor throws. */
  function ClassifierAsWritten(db: Database, score: Score): (t: Option<Tree>)
    requires Rectangular(db)
    ensures t.Some? ==> t.value == Classifier(db, score)
  {
    RootValid(db);
    AsWrittenAgrees(db, Range(1, Width(db)), Range(0, |db|), score);
    BuildAsWritten(db, Range(1, Width(db)), Range(0, |db|), score)
  }

  /** The decisions on the leaves of a tree. */
  function Decisions(t: Tree): set<string>
  {
    match t
    case Leaf(d) => {d}
    case Split(_, children) => set v, d | v in children && d in Decisions(children[v]) :: d
  }

  /**
   * test, lines 151-158: follow the child for the row's value until a leaf.
   * None stands for the source's exceptions: a split column past the end of
   * the row (`data.get`) or a value with no child (a null pointer). A
   * decision is always the decision of one of the tree's leaves.
   */
  function Test(t: Tree, row: Row): (r: Option<string>)
    ensures t.Leaf? ==> r.Some?
    ensures r.Some? ==> r.value in Decisions(t)
  {
    match t
    case Leaf(d) => Some(d)
    case Split(f, children) =>
      if f < |row| && row[f] in children then Test(children[row[f]], row) else None
  }

  /** No path from the root passes through more than `d` splits. */
  predicate DepthAtMost(t: Tree, d: nat)
  {
    match t
    case Leaf(_) => true
    case Split(_, children) => d > 0 && forall v :: v in children ==> DepthAtMost(children[v], d - 1)
  }

  // ---------------------------------------------------------------------------
  // Properties of the built tree

  /**
   * A node is a leaf exactly when its rows share a label or each remaining
   * attribute is constant on them (in particular when none remains); a
   * homogeneous leaf decides the common label, any other leaf a majority
   * label.
   */
  lemma BuildShape(db: Database, attrs: seq<nat>, idx: seq<nat>, score: Score)
    requires Rectangular(db) && ValidIndices(db, idx) && idx != [] && ValidColumns(db, attrs)
    ensures var t := Build(db, attrs, idx, score);
      && (t.Leaf? <==> Homogeneous(db, idx) || forall k :: 0 <= k < |attrs| ==> Constant(db, idx, attrs[k]))
      && (Homogeneous(db, idx) ==> t == Leaf(Label(db, idx[0])))
      && (t.Leaf? ==> forall k :: 0 <= k < |idx| ==>
            LabelCount(db, idx, Label(db, idx[k])) <= LabelCount(db, idx, t.decision))
  {
    if Homogeneous(db, idx) {
      var l := Label(db, idx[0]);
      assert l in Values(db, idx, 0);
      forall k | 0 <= k < |idx| ensures LabelCount(db, idx, Label(db, idx[k])) <= LabelCount(db, idx, l) {
        assert Label(db, idx[k]) == l;
      }
    }
  }

  /** Every split uses up an attribute, so the tree is no deeper than the attribute list is long. */
  lemma {:induction false} BuildDepth(db: Database, attrs: seq<nat>, idx: seq<nat>, score: Score)
    requires Rectangular(db) && ValidIndices(db, idx) && idx != [] && ValidColumns(db, attrs)
    ensures DepthAtMost(Build(db, attrs, idx, score), |attrs|)
    decreases |attrs|
  {
    if !Homogeneous(db, idx) && PickSplit(db, idx, attrs, score).Some? {
      var f := PickSplit(db, idx, attrs, score).value;
      var children := PartitionBasedOnFeature(db, Node(attrs, idx), f);
      BuildSplit(db, attrs, idx, score);
      var t := Build(db, attrs, idx, score);
      forall v | v in t.children ensures DepthAtMost(t.children[v], |attrs| - 1) {
        BuildDepth(db, children[v].attributes, children[v].dataIndex, score);
        DepthAtMostMono(t.children[v], |children[v].attributes|, |attrs| - 1);
      }
    }
  }

  lemma {:induction false} DepthAtMostMono(t: Tree, d: nat, e: nat)
    requires DepthAtMost(t, d) && d <= e
    ensures DepthAtMost(t, e)
  {
    if t.Split? {
      forall v | v in t.children ensures DepthAtMost(t.children[v], e - 1) {
        DepthAtMostMono(t.children[v], d - 1, e - 1);
      }
    }
  }

  /** The child a row of the node is sent to: it exists, holds the row, and holds only rows of the node. */
  lemma ChildOfRow(db: Database, attrs: seq<nat>, idx: seq<nat>, f: nat, i: nat)
    requires Rectangular(db) && ValidIndices(db, idx) && f < Width(db) && ValidColumns(db, attrs)
    requires i in idx
    ensures i < |db| && f < |db[i]|
    ensures var children := PartitionBasedOnFeature(db, Node(attrs, idx), f);
      && db[i][f] in children
      && i in children[db[i][f]].dataIndex
      && forall k :: 0 <= k < |children[db[i][f]].dataIndex| ==>
           children[db[i][f]].dataIndex[k] in idx && db[children[db[i][f]].dataIndex[k]][f] == db[i][f]
  {
    var k :| 0 <= k < |idx| && idx[k] == i;
    var v := db[i][f];
    assert v in Values(db, idx, f);
    SelectMember(db, idx, f, v, i);
    var sel := Select(db, idx, f, v);
    forall m | 0 <= m < |sel| ensures sel[m] in idx && db[sel[m]][f] == v {
      SelectMember(db, idx, f, v, sel[m]);
    }
  }

  /**
   * Classifying one of a node's own rows always reaches a decision, and the
   * decision is the label of one of the node's rows.
   */
  lemma {:induction false} TestTrainingRow(db: Database, attrs: seq<nat>, idx: seq<nat>, score: Score, i: nat)
    requires Rectangular(db) && ValidIndices(db, idx) && idx != [] && ValidColumns(db, attrs)
    requires i in idx
    ensures Test(Build(db, attrs, idx, score), db[i]).Some?
    ensures Test(Build(db, attrs, idx, score), db[i]).value in Values(db, idx, 0)
    decreases |attrs|
  {
    var t := Build(db, attrs, idx, score);
    if !Homogeneous(db, idx) && PickSplit(db, idx, attrs, score).Some? {
      var f := PickSplit(db, idx, attrs, score).value;
      var children := PartitionBasedOnFeature(db, Node(attrs, idx), f);
      BuildSplit(db, attrs, idx, score);
      ChildOfRow(db, attrs, idx, f, i);
      var child := children[db[i][f]];
      TestTrainingRow(db, child.attributes, child.dataIndex, score, i);
      SubsetValues(db, child.dataIndex, idx, 0);
      assert Test(t, db[i]) == Test(t.children[db[i][f]], db[i]);
    }
  }

  /** Labels of a sub-list of rows are labels of the whole list. */
  lemma SubsetValues(db: Database, small: seq<nat>, big: seq<nat>, f: nat)
    requires Rectangular(db) && ValidIndices(db, small) && ValidIndices(db, big) && f < Width(db)
    requires forall k :: 0 <= k < |small| ==> small[k] in big
    ensures Values(db, small, f) <= Values(db, big, f)
  {
    forall x | x in Values(db, small, f) ensures x in Values(db, big, f) {
      var k :| 0 <= k < |small| && db[small[k]][f] == x;
      var m :| 0 <= m < |big| && big[m] == small[k];
    }
  }

  /** Rows `i` and `j` hold the same value in every listed column. */
  predicate Agree(db: Database, i: nat, j: nat, attrs: seq<nat>)
    requires Rectangular(db) && i < |db| && j < |db| && ValidColumns(db, attrs)
  {
    forall k :: 0 <= k < |attrs| ==> db[i][attrs[k]] == db[j][attrs[k]]
  }

  /** Every listed row that agrees with row `i` on the attributes carries row `i`'s label. */
  predicate ConsistentWith(db: Database, idx: seq<nat>, attrs: seq<nat>, i: nat)
    requires Rectangular(db) && ValidIndices(db, idx) && i < |db| && ValidColumns(db, attrs)
  {
    forall k :: 0 <= k < |idx| && Agree(db, i, idx[k], attrs) ==> Label(db, idx[k]) == Label(db, i)
  }

  /**
   * A row that no other row of the node contradicts (same attribute values,
   * different label) is classified with its own label.
   */
  lemma {:induction false} TestConsistentRow(db: Database, attrs: seq<nat>, idx: seq<nat>, score: Score, i: nat)
    requires Rectangular(db) && ValidIndices(db, idx) && idx != [] && ValidColumns(db, attrs)
    requires i in idx && ConsistentWith(db, idx, attrs, i)
    ensures Test(Build(db, attrs, idx, score), db[i]) == Some(Label(db, i))
    decreases |attrs|
  {
    var t := Build(db, attrs, idx, score);
    var q :| 0 <= q < |idx| && idx[q] == i;
    if PickSplit(db, idx, attrs, score).None? {
      // every attribute is constant on the node, so every row agrees with row i
      forall k | 0 <= k < |idx| ensures Label(db, idx[k]) == Label(db, i) {
        forall m | 0 <= m < |attrs| ensures db[i][attrs[m]] == db[idx[k]][attrs[m]] {
          assert Constant(db, idx, attrs[m]);
        }
        assert Agree(db, i, idx[k], attrs);
      }
      assert Homogeneous(db, idx);
    } else if !Homogeneous(db, idx) {
      var f := PickSplit(db, idx, attrs, score).value;
      var children := PartitionBasedOnFeature(db, Node(attrs, idx), f);
      BuildSplit(db, attrs, idx, score);
      ChildOfRow(db, attrs, idx, f, i);
      var child := children[db[i][f]];
      ChildConsistent(db, attrs, idx, f, i);
      TestConsistentRow(db, child.attributes, child.dataIndex, score, i);
      assert Test(t, db[i]) == Test(t.children[db[i][f]], db[i]);
    }
  }

  /** A row consistent within its node stays consistent within the child it is sent to. */
  lemma ChildConsistent(db: Database, attrs: seq<nat>, idx: seq<nat>, f: nat, i: nat)
    requires Rectangular(db) && ValidIndices(db, idx) && f < Width(db) && ValidColumns(db, attrs)
    requires i in idx && f in attrs && ConsistentWith(db, idx, attrs, i)
    ensures i < |db| && f < |db[i]|
    ensures var children := PartitionBasedOnFeature(db, Node(attrs, idx), f);
      && db[i][f] in children
      && ValidIndices(db, children[db[i][f]].dataIndex)
      && ValidColumns(db, children[db[i][f]].attributes)
      && ConsistentWith(db, children[db[i][f]].dataIndex, children[db[i][f]].attributes, i)
  {
    var children := PartitionBasedOnFeature(db, Node(attrs, idx), f);
    ChildOfRow(db, attrs, idx, f, i);
    ChildrenFacts(db, Node(attrs, idx), f);
    var child := children[db[i][f]];
    RemoveFirstFacts(attrs, f);
    forall k | 0 <= k < |child.dataIndex| && Agree(db, i, child.dataIndex[k], child.attributes)
      ensures Label(db, child.dataIndex[k]) == Label(db, i)
    {
      var j := child.dataIndex[k];
      AgreeAfterSplit(db, attrs, f, i, j, child.attributes);
      var q :| 0 <= q < |idx| && idx[q] == j;
      assert Agree(db, i, idx[q], attrs);
    }
  }

  /** Rows that agree on the split column and on the remaining attributes agree on all attributes. */
  lemma AgreeAfterSplit(db: Database, attrs: seq<nat>, f: nat, i: nat, j: nat, rest: seq<nat>)
    requires Rectangular(db) && i < |db| && j < |db| && ValidColumns(db, attrs) && ValidColumns(db, rest)
    requires f < Width(db) && db[i][f] == db[j][f]
    requires forall y :: y in attrs && y != f ==> y in rest
    requires Agree(db, i, j, rest)
    ensures Agree(db, i, j, attrs)
  {
    forall m | 0 <= m < |attrs| ensures db[i][attrs[m]] == db[j][attrs[m]] {
      if attrs[m] != f {
        assert attrs[m] in rest;
        var p :| 0 <= p < |rest| && rest[p] == attrs[m];
      }
    }
  }

  // ---------------------------------------------------------------------------
  // The whole classifier

  /** Every row of a node is classified by the node's tree. */
  lemma TrainingRowsClassified(db: Database, attrs: seq<nat>, idx: seq<nat>, score: Score)
    requires Rectangular(db) && ValidIndices(db, idx) && idx != [] && ValidColumns(db, attrs)
    requires forall i :: 0 <= i < |db| ==> i in idx
    ensures forall i :: 0 <= i < |db| ==> Test(Build(db, attrs, idx, score), db[i]).Some?
  {
    forall i | 0 <= i < |db| ensures Test(Build(db, attrs, idx, score), db[i]).Some? {
      TestTrainingRow(db, attrs, idx, score, i);
    }
  }

  lemma RootValid(db: Database)
    requires Rectangular(db)
    ensures ValidIndices(db, Range(0, |db|)) && Range(0, |db|) != []
    ensures ValidColumns(db, Range(1, Width(db)))
    ensures forall i :: 0 <= i < |db| ==> i in Range(0, |db|)
  {
    var idx := Range(0, |db|);
    forall i | 0 <= i < |db| ensures i in idx {
      assert idx[i] == i;
    }
  }

  /**
   * A training row is classified with its own label whenever no training row
   * with the same values in the attribute columns (1 up to the first row's
   * width) carries a different one.
   */
  lemma ClassifierFacts(db: Database, score: Score)
    requires Rectangular(db)
    ensures forall i :: (0 <= i < |db| &&
      forall j :: 0 <= j < |db| && db[j][1..Width(db)] == db[i][1..Width(db)] ==> db[j][0] == db[i][0]) ==>
        Test(Classifier(db, score), db[i]) == Some(db[i][0])
  {
    var attrs := Range(1, Width(db));
    var idx := Range(0, |db|);
    RootValid(db);
    forall i | 0 <= i < |db| &&
      (forall j :: 0 <= j < |db| && db[j][1..Width(db)] == db[i][1..Width(db)] ==> db[j][0] == db[i][0])
      ensures Test(Classifier(db, score), db[i]) == Some(db[i][0])
    {
      forall k | 0 <= k < |idx| && Agree(db, i, idx[k], attrs) ensures Label(db, idx[k]) == Label(db, i) {
        var j := idx[k];
        assert db[j][1..Width(db)] == db[i][1..Width(db)] by {
          forall m | 0 <= m < Width(db) - 1 ensures db[j][1..Width(db)][m] == db[i][1..Width(db)][m] {
            assert attrs[m] == m + 1;
          }
        }
      }
      TestConsistentRow(db, attrs, idx, score, i);
    }
  }

  /**
   * A two-row database whose only attribute column holds one value, with two
   * different labels: the source's constructor throws, while the corrected
   * builder makes a single majority leaf that classifies both rows.
   */
  lemma ConstantAttributesThrow(score: Score)
    ensures var db: Database := [["yes", "a"], ["no", "a"]];
      && Rectangular(db)
      && ClassifierAsWritten(db, score).None?
      && Classifier(db, score).Leaf?
      && Test(Classifier(db, score), db[0]).Some? && Test(Classifier(db, score), db[1]).Some?
  {
    var db: Database := [["yes", "a"], ["no", "a"]];
    ConstantRoot();
    var idx, attrs := Range(0, |db|), Range(1, Width(db));
    RootValid(db);
    assert PickSplit(db, idx, attrs, score).None?;
    assert BuildAsWritten(db, attrs, idx, score).None?;
  }

  /** The root of that database: both rows, the one attribute, two labels, one attribute value. */
  lemma ConstantRoot()
    ensures var db: Database := [["yes", "a"], ["no", "a"]];
      && Rectangular(db) && Width(db) == 2
      && Range(0, |db|) == [0, 1] && Range(1, Width(db)) == [1]
      && ValidIndices(db, [0, 1]) && ValidColumns(db, [1])
      && !Homogeneous(db, [0, 1]) && Constant(db, [0, 1], 1)
  {
    var db: Database := [["yes", "a"], ["no", "a"]];
    var idx, attrs := Range(0, 2), Range(1, 2);
    assert idx[0] == 0 && idx[1] == 1 && attrs[0] == 1;
    assert Label(db, idx[1]) != Label(db, idx[0]);
  }
}
