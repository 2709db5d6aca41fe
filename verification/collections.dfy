/**
 * Small collection vocabulary shared by the itemset miner and the decision tree:
 * an Option type, duplicate-freeness, order-preserving subsequences, and the
 * "count occurrences in a hash map" pattern both programs use
 * (`map.containsKey(x) ? map.put(x, map.get(x) + 1) : map.put(x, 1)`).
 *
 * Java's HashMap iteration order is unspecified; a `Counter` fixes it to
 * first-insertion order, and every property proved about the programs holds
 * whatever order is chosen.
 */
module Collections {

  datatype Option<+T> = None | Some(value: T)

  /** No value occurs twice in `s`. */
  predicate Distinct<T(==)>(s: seq<T>)
  {
    forall i, j :: 0 <= i < j < |s| ==> s[i] != s[j]
  }

  /** `s` is `t` with some elements deleted, the rest kept in their order. */
  predicate IsSubsequence<T(==)>(s: seq<T>, t: seq<T>)
    decreases |t|
  {
    s == [] || (t != [] && ((s[0] == t[0] && IsSubsequence(s[1..], t[1..])) || IsSubsequence(s, t[1..])))
  }

  /** Every element of a subsequence is an element of the sequence it came from. */
  lemma {:induction false} SubsequenceElements<T>(s: seq<T>, t: seq<T>, x: T)
    requires IsSubsequence(s, t)
    requires x in s
    ensures x in t
    decreases |t|
  {
    if s[0] == t[0] && IsSubsequence(s[1..], t[1..]) {
      if x != s[0] {
        assert x in s[1..];
        SubsequenceElements(s[1..], t[1..], x);
      }
    } else {
      SubsequenceElements(s, t[1..], x);
    }
  }

  /** The distinct elements of `xs`, each at the place it first occurs. */
  function Dedup<T(==)>(xs: seq<T>): (r: seq<T>)
    ensures Distinct(r)
    ensures forall i :: 0 <= i < |r| ==> r[i] in xs
    ensures forall i :: 0 <= i < |xs| ==> xs[i] in r
  {
    if xs == [] then []
    else
      var prefix := Dedup(xs[..|xs| - 1]);
      var last := xs[|xs| - 1];
      assert xs == xs[..|xs| - 1] + [last];
      if last in prefix then prefix else prefix + [last]
  }

  /** In a duplicate-free sequence a value occurs once or not at all. */
  lemma {:induction false} DistinctMultiplicity<T>(s: seq<T>, x: T)
    requires Distinct(s)
    ensures multiset(s)[x] == if x in s then 1 else 0
  {
    if s != [] {
      var init := s[..|s| - 1];
      assert s == init + [s[|s| - 1]];
      DistinctMultiplicity(init, x);
      assert s[|s| - 1] !in init;
    }
  }

  /** A hash map from values to occurrence counts, with its iteration order. */
  datatype Counter<T> = Counter(counts: map<T, nat>, order: seq<T>)

  /** One `containsKey ? put(get + 1) : put(1)` step. */
  function Bump<T(==)>(c: Counter<T>, x: T): Counter<T>
  {
    if x in c.counts then Counter(c.counts[x := c.counts[x] + 1], c.order)
    else Counter(c.counts[x := 1], c.order + [x])
  }

  /** The counter after bumping every element of `xs`, left to right. */
  function CountAll<T(==)>(xs: seq<T>): (c: Counter<T>)
    ensures c.counts.Keys == set x | x in xs
    ensures forall x :: x in c.counts ==> c.counts[x] == multiset(xs)[x]
    ensures c.order == Dedup(xs)
  {
    if xs == [] then Counter(map[], [])
    else
      var prefix := xs[..|xs| - 1];
      var last := xs[|xs| - 1];
      assert xs == prefix + [last];
      Bump(CountAll(prefix), last)
  }

  /** The keys of `order` whose count reaches `threshold`, in iteration order. */
  function KeepAtLeast<T(==)>(order: seq<T>, counts: map<T, nat>, threshold: int): (r: seq<T>)
    requires forall x :: x in order ==> x in counts
    ensures forall i :: 0 <= i < |r| ==> r[i] in order && counts[r[i]] >= threshold
    ensures forall i :: 0 <= i < |order| && counts[order[i]] >= threshold ==> order[i] in r
    ensures Distinct(order) ==> Distinct(r)
  {
    if order == [] then []
    else
      var rest := KeepAtLeast(order[1..], counts, threshold);
      if counts[order[0]] >= threshold then [order[0]] + rest else rest
  }

  /** Membership in the kept keys, stated element-wise. */
  lemma KeptMember<T>(order: seq<T>, counts: map<T, nat>, threshold: int, x: T)
    requires forall y :: y in order ==> y in counts
    ensures x in KeepAtLeast(order, counts, threshold) <==> x in order && counts[x] >= threshold
  {
    var r := KeepAtLeast(order, counts, threshold);
    if x in r {
      var i :| 0 <= i < |r| && r[i] == x;
    }
    if x in order && counts[x] >= threshold {
      var i :| 0 <= i < |order| && order[i] == x;
    }
  }

  /** The position of the first occurrence of `x` in `s`, or `|s|` when absent. */
  function IndexOf<T(==)>(s: seq<T>, x: T): (i: nat)
    ensures i <= |s|
    ensures i < |s| <==> x in s
    ensures i < |s| ==> s[i] == x
    ensures forall j :: 0 <= j < i ==> s[j] != x
  {
    if s == [] then 0
    else if s[0] == x then 0
    else 1 + IndexOf(s[1..], x)
  }

  /** A subset is no larger than its superset. */
  lemma {:induction false} SubsetCard<T>(a: set<T>, b: set<T>)
    requires a <= b
    ensures |a| <= |b|
    decreases |a|
  {
    if a != {} {
      var x :| x in a;
      SubsetCard(a - {x}, b - {x});
    }
  }

  /** A subset as large as its superset is the superset. */
  lemma {:induction false} SubsetSameCard<T>(a: set<T>, b: set<T>)
    requires a <= b && |a| == |b|
    ensures a == b
    decreases |a|
  {
    if a != {} {
      var x :| x in a;
      assert |a - {x}| == |a| - 1 && |b - {x}| == |b| - 1;
      SubsetSameCard(a - {x}, b - {x});
      assert a == (a - {x}) + {x} && b == (b - {x}) + {x};
    } else {
      assert |b| == 0;
    }
  }
}
