/**
 * The report the miner writes (Apriori/src/Apriori.java:304-349): the keys of
 * `mItemSet` sorted by the comparator of lines 320-338, one line per itemset,
 * each item followed by a space (`listTOString`, lines 304-310) and then the
 * count in parentheses (line 343). The file write itself is not modelled.
 */
module Output {
  import opened Collections
  import opened Subsets
  import opened Validate

  // ---------------------------------------------------------------------------
  // The comparator

  /** The comparator's loop, lines 323-337, from position `i` of both lists. */
  function CompareFrom(a: seq<int>, b: seq<int>, i: nat): (r: int)
    requires i <= |a| && i <= |b|
    ensures -1 <= r <= 1
    decreases |a| - i
  {
    if i < |a| && i < |b| then
      if a[i] == b[i] then CompareFrom(a, b, i + 1)
      else if a[i] < b[i] then -1
      else 1
    else if i == |a| && i == |b| then 0
    else if i < |a| then 1
    else -1
  }

  /** The comparator passed to `keys.sort`. */
  function Compare(a: seq<int>, b: seq<int>): (r: int)
    ensures r == -1 <==> LexLess(a, b)
    ensures r == 1 <==> LexLess(b, a)
    ensures r == 0 <==> a == b
  {
    CompareFromLex(a, b, 0);
    assert a[0..] == a && b[0..] == b;
    CompareFrom(a, b, 0)
  }

  /** From position `i` on, the comparator is the lexicographic order of the remaining items. */
  lemma {:induction false} CompareFromLex(a: seq<int>, b: seq<int>, i: nat)
    requires i <= |a| && i <= |b|
    ensures CompareFrom(a, b, i) == -1 <==> LexLess(a[i..], b[i..])
    ensures CompareFrom(a, b, i) == 1 <==> LexLess(b[i..], a[i..])
    ensures CompareFrom(a, b, i) == 0 <==> a[i..] == b[i..]
    decreases |a| - i
  {
    if i < |a| && i < |b| {
      CompareFromLex(a, b, i + 1);
      assert a[i..][1..] == a[i + 1..] && b[i..][1..] == b[i + 1..];
      if a[i] == b[i] {
        assert a[i..] == b[i..] <==> a[i + 1..] == b[i + 1..] by {
          assert a[i..] == [a[i]] + a[i + 1..] && b[i..] == [b[i]] + b[i + 1..];
        }
      } else {
        assert a[i..][0] != b[i..][0];
      }
    }
  }


  /** The comparator is antisymmetric. */
  lemma CompareAntisymmetric(a: seq<int>, b: seq<int>)
    ensures Compare(a, b) == -Compare(b, a)
  {
  }

  /** A proper prefix sorts first. */
  lemma PrefixFirst(a: seq<int>, b: seq<int>)
    requires a < b
    ensures Compare(a, b) == -1
  {
    PrefixLexLess(a, b);
  }

  lemma {:induction false} PrefixLexLess(a: seq<int>, b: seq<int>)
    requires a < b
    ensures LexLess(a, b)
  {
    if a != [] {
      assert a[1..] < b[1..];
      PrefixLexLess(a[1..], b[1..]);
    }
  }

  /** The comparator orders transitively. */
  lemma CompareTransitive(a: seq<int>, b: seq<int>, c: seq<int>)
    requires Compare(a, b) == -1 && Compare(b, c) == -1
    ensures Compare(a, c) == -1
  {
    LexTransitive(a, b, c);
  }

  lemma {:induction false} LexTransitive(a: seq<int>, b: seq<int>, c: seq<int>)
    requires LexLess(a, b) && LexLess(b, c)
    ensures LexLess(a, c)
  {
    if a != [] && a[0] == b[0] && b[0] == c[0] {
      LexTransitive(a[1..], b[1..], c[1..]);
    }
  }

  /** Two different lists are ordered one way or the other. */
  lemma {:induction false} LexTotal(a: seq<int>, b: seq<int>)
    requires a != b
    ensures LexLess(a, b) || LexLess(b, a)
  {
    if a != [] && b != [] && a[0] == b[0] {
      assert a == [a[0]] + a[1..] && b == [b[0]] + b[1..];
      LexTotal(a[1..], b[1..]);
    }
  }

  /** Two lists are never each below the other. */
  lemma LexNotBoth(a: seq<int>, b: seq<int>)
    ensures !(LexLess(a, b) && LexLess(b, a))
  {
    if LexLess(a, b) {
      LexAsymmetric(a, b);
    }
  }

  lemma {:induction false} LexAsymmetric(a: seq<int>, b: seq<int>)
    requires LexLess(a, b)
    ensures !LexLess(b, a)
  {
    if a != [] && b != [] && a[0] == b[0] {
      LexAsymmetric(a[1..], b[1..]);
    }
  }

  // ---------------------------------------------------------------------------
  // Sorting the keys

  /** Insert `x` before the first element the comparator puts after it. */
  function Insert(x: seq<int>, s: seq<seq<int>>): (r: seq<seq<int>>)
    ensures multiset(r) == multiset(s) + multiset{x}
  {
    if s == [] || Compare(x, s[0]) < 0 then [x] + s
    else
      assert s == [s[0]] + s[1..];
      [s[0]] + Insert(x, s[1..])
  }

  /**
   * `keys.sort(comparator)` on the key list in the hash map's iteration order.
   * Java uses a stable merge sort; on distinct keys every correct sort gives
   * the same list (`SortedUnique`), so the model sorts by insertion.
   */
  function SortKeys(keys: seq<seq<int>>): (r: seq<seq<int>>)
    ensures multiset(r) == multiset(keys)
  {
    if keys == [] then []
    else
      assert keys == [keys[0]] + keys[1..];
      Insert(keys[0], SortKeys(keys[1..]))
  }

  lemma {:induction false} InsertSorted(x: seq<int>, s: seq<seq<int>>)
    requires LexSorted(s) && x !in s
    ensures LexSorted(Insert(x, s))
  {
    var r := Insert(x, s);
    if s == [] || Compare(x, s[0]) < 0 {
      if s != [] {
        forall j | 0 < j < |r| ensures LexLess(r[0], r[j]) {
          if j > 1 {
            LexTransitive(x, s[0], s[j - 1]);
          }
        }
      }
    } else {
      assert x != s[0];
      LexTotal(x, s[0]);
      InsertSorted(x, s[1..]);
      var rest := Insert(x, s[1..]);
      assert multiset(rest) == multiset(s[1..]) + multiset{x};
      forall j | 0 <= j < |rest| ensures LexLess(s[0], rest[j]) {
        assert rest[j] in multiset(rest);
        if rest[j] != x {
          assert rest[j] in s[1..];
        }
      }
    }
  }

  /** Sorting a duplicate-free key list orders it strictly by the comparator. */
  lemma {:induction false} SortKeysSorted(keys: seq<seq<int>>)
    requires Distinct(keys)
    ensures LexSorted(SortKeys(keys))
  {
    if keys != [] {
      SortKeysSorted(keys[1..]);
      var rest := SortKeys(keys[1..]);
      assert keys[0] !in multiset(rest) by {
        assert keys[0] !in keys[1..];
      }
      InsertSorted(keys[0], rest);
    }
  }

  /** Two strictly sorted lists with the same elements are the same list. */
  lemma {:induction false} SortedUnique(a: seq<seq<int>>, b: seq<seq<int>>)
    requires LexSorted(a) && LexSorted(b)
    requires forall x :: x in a <==> x in b
    ensures a == b
    decreases |a|
  {
    assert a == [] || a[0] in a;
    assert b == [] || b[0] in b;
    if a != [] && b != [] {
      var i :| 0 <= i < |b| && b[i] == a[0];
      var j :| 0 <= j < |a| && a[j] == b[0];
      LexNotBoth(a[0], b[0]);
      LexIrreflexive(b[0]);
      assert a[0] == b[0];
      LexIrreflexive(a[0]);
      forall x ensures x in a[1..] <==> x in b[1..] {
        assert a == [a[0]] + a[1..] && b == [b[0]] + b[1..];
        if x in a[1..] {
          var p :| 1 <= p < |a| && a[p] == x;
          assert LexLess(a[0], a[p]);
          assert x in a && x in b && x != b[0];
        }
        if x in b[1..] {
          var p :| 1 <= p < |b| && b[p] == x;
          assert LexLess(b[0], b[p]);
          assert x in b && x in a && x != a[0];
        }
      }
      SortedUnique(a[1..], b[1..]);
      assert a == [a[0]] + a[1..] && b == [b[0]] + b[1..];
    }
  }

  // ---------------------------------------------------------------------------
  // The line format

  function DigitChar(d: nat): char
    requires d < 10
  {
    ['0', '1', '2', '3', '4', '5', '6', '7', '8', '9'][d]
  }

  predicate IsDigit(c: char)
  {
    '0' <= c <= '9'
  }

  function DigitValue(c: char): nat
    requires IsDigit(c)
  {
    (c - '0') as nat
  }

  /** Decimal digits of `n`, most significant first, without leading zeros. */
  function ShowNat(n: nat): (s: string)
    ensures |s| >= 1
    ensures forall i :: 0 <= i < |s| ==> IsDigit(s[i])
  {
    if n < 10 then [DigitChar(n)] else ShowNat(n / 10) + [DigitChar(n % 10)]
  }

  /** `String.valueOf(int)`: a minus sign for negative values, then the digits. */
  function ShowInt(i: int): (s: string)
    ensures |s| >= 1
    ensures s[0] == '-' <==> i < 0
    ensures forall k :: 1 <= k < |s| ==> IsDigit(s[k])
  {
    if i < 0 then "-" + ShowNat(-i) else ShowNat(i)
  }

  /** `listTOString`, lines 304-310: every item followed by one space. */
  function ListToString(items: seq<int>): (r: string)
    ensures r == [] <==> items == []
    ensures r != [] ==> r[|r| - 1] == ' '
    ensures forall k :: 0 <= k < |r| ==> r[k] == ' ' || r[k] == '-' || IsDigit(r[k])
  {
    if items == [] then "" else ShowInt(items[0]) + " " + ListToString(items[1..])
  }

  /** The line written for one itemset at line 343. */
  function FormatLine(items: seq<int>, count: nat): (line: string)
    ensures ParseLine(line) == Some((items, count as int))
  {
    ReadBackLine(items, count);
    ListToString(items) + "(" + ShowInt(count) + ")\n"
  }

  /**
   * The report, lines 317-344: the keys sorted with the comparator, one line
   * each, and every line reads back as a key of the table with the count
   * stored for it.
   */
  function Report(table: Table, keys: seq<seq<int>>): (lines: seq<string>)
    requires forall k :: k in keys ==> k in table
    ensures |lines| == |keys|
    ensures forall i :: 0 <= i < |lines| ==>
      ParseLine(lines[i]).Some? && ParseLine(lines[i]).value.0 in table &&
      ParseLine(lines[i]).value.1 == table[ParseLine(lines[i]).value.0]
  {
    var sorted := SortKeys(keys);
    SortedKeysInTable(table, keys);
    seq(|sorted|, i requires 0 <= i < |sorted| => FormatLine(sorted[i], table[sorted[i]]))
  }

  lemma SortedKeysInTable(table: Table, keys: seq<seq<int>>)
    requires forall k :: k in keys ==> k in table
    ensures |SortKeys(keys)| == |keys|
    ensures forall i :: 0 <= i < |SortKeys(keys)| ==> SortKeys(keys)[i] in table
  {
    var sorted := SortKeys(keys);
    assert |sorted| == |multiset(sorted)| == |multiset(keys)| == |keys|;
    forall i | 0 <= i < |sorted| ensures sorted[i] in table {
      assert sorted[i] in multiset(keys);
    }
  }

  // ---------------------------------------------------------------------------
  // Reading a line back

  /** The number of leading digits of `s`. */
  function DigitRun(s: string): (n: nat)
    ensures n <= |s|
  {
    if s != [] && IsDigit(s[0]) then 1 + DigitRun(s[1..]) else 0
  }

  /** The value of a string of decimal digits. */
  function DigitsValue(s: string): nat
    requires forall i :: 0 <= i < |s| ==> IsDigit(s[i])
  {
    if s == [] then 0 else 10 * DigitsValue(s[..|s| - 1]) + DigitValue(s[|s| - 1])
  }

  /** A natural number at the front of `s`, and what follows it. */
  function ReadNat(s: string): Option<(nat, string)>
  {
    var n := DigitRun(s);
    DigitRunDigits(s);
    if n == 0 then None else Some((DigitsValue(s[..n]), s[n..]))
  }

  /** An optionally negative integer at the front of `s`, and what follows it. */
  function ReadInt(s: string): Option<(int, string)>
  {
    if s != [] && s[0] == '-' then
      match ReadNat(s[1..])
      case None => None
      case Some((v, rest)) => Some((-(v as int), rest))
    else
      match ReadNat(s)
      case None => None
      case Some((v, rest)) => Some((v as int, rest))
  }

  /** Items, each followed by a space, up to the opening parenthesis. */
  function ReadItems(s: string): Option<(seq<int>, string)>
    decreases |s|
  {
    if s != [] && s[0] == '(' then Some(([], s))
    else
      match ReadInt(s)
      case None => None
      case Some((v, rest)) =>
        ReadIntShortens(s);
        if rest != [] && rest[0] == ' ' then
          match ReadItems(rest[1..])
          case None => None
          case Some((vs, tail)) => Some(([v] + vs, tail))
        else None
  }

  /** Read one report line back into its itemset and count. */
  function ParseLine(s: string): Option<(seq<int>, int)>
  {
    match ReadItems(s)
    case None => None
    case Some((items, rest)) =>
      if rest != [] && rest[0] == '(' then
        match ReadInt(rest[1..])
        case None => None
        case Some((count, tail)) => if tail == ")\n" then Some((items, count)) else None
      else None
  }

  lemma DigitRunDigits(s: string)
    ensures forall i :: 0 <= i < DigitRun(s) ==> IsDigit(s[i])
  {
    if s != [] && IsDigit(s[0]) {
      DigitRunDigits(s[1..]);
      forall i | 0 < i < DigitRun(s) ensures IsDigit(s[i]) {
        assert s[i] == s[1..][i - 1];
      }
    }
  }

  lemma ReadIntShortens(s: string)
    ensures ReadInt(s).Some? ==> |ReadInt(s).value.1| < |s|
  {
  }

  /** The digits of `n` read back as `n`. */
  lemma {:induction false} ShowNatValue(n: nat)
    ensures DigitsValue(ShowNat(n)) == n
  {
    if n >= 10 {
      ShowNatValue(n / 10);
      var s := ShowNat(n);
      assert s[..|s| - 1] == ShowNat(n / 10);
    }
  }

  /** Leading digits stop where the digits of `n` stop. */
  lemma {:induction false} DigitRunAppend(d: string, rest: string)
    requires forall i :: 0 <= i < |d| ==> IsDigit(d[i])
    requires rest == [] || !IsDigit(rest[0])
    ensures DigitRun(d + rest) == |d|
  {
    if d != [] {
      assert (d + rest)[1..] == d[1..] + rest;
      DigitRunAppend(d[1..], rest);
    }
  }

  lemma ReadShowNat(n: nat, rest: string)
    requires rest == [] || !IsDigit(rest[0])
    ensures ReadNat(ShowNat(n) + rest) == Some((n, rest))
  {
    var s := ShowNat(n) + rest;
    DigitRunAppend(ShowNat(n), rest);
    assert s[..|ShowNat(n)|] == ShowNat(n) && s[|ShowNat(n)|..] == rest;
    ShowNatValue(n);
  }

  /** An integer written by `ShowInt` reads back as itself. */
  lemma ReadShowInt(i: int, rest: string)
    requires rest == [] || !IsDigit(rest[0])
    ensures ReadInt(ShowInt(i) + rest) == Some((i, rest))
  {
    if i < 0 {
      ReadShowNegative(i, rest);
    } else {
      ReadShowNonNegative(i, rest);
    }
  }

  lemma ReadShowNegative(i: int, rest: string)
    requires i < 0 && (rest == [] || !IsDigit(rest[0]))
    ensures ReadInt(ShowInt(i) + rest) == Some((i, rest))
  {
    ReadShowNat(-i, rest);
    ReadMinus(ShowNat(-i), rest, -i);
  }

  /** A minus sign in front of a natural number reads back as its negation. */
  lemma ReadMinus(n: string, rest: string, v: nat)
    requires ReadNat(n + rest) == Some((v, rest))
    ensures ReadInt(("-" + n) + rest) == Some((-(v as int), rest))
  {
    MinusParts(n, rest);
    ReadIntMinus("-" + (n + rest), v, rest);
  }

  /** A minus sign in front of the digits, regrouped around what follows them. */
  lemma MinusParts(n: string, rest: string)
    ensures ("-" + n) + rest == "-" + (n + rest)
    ensures ("-" + (n + rest))[0] == '-' && ("-" + (n + rest))[1..] == n + rest
  {
  }

  lemma ReadShowNonNegative(i: nat, rest: string)
    requires rest == [] || !IsDigit(rest[0])
    ensures ReadInt(ShowInt(i) + rest) == Some((i, rest))
  {
    var s := ShowInt(i) + rest;
    assert s == ShowNat(i) + rest;
    assert IsDigit(ShowNat(i)[0]);
    assert s[0] == ShowNat(i)[0];
    ReadShowNat(i, rest);
    ReadIntPlain(s, i, rest);
  }

  lemma ReadIntMinus(s: string, v: nat, rest: string)
    requires s != [] && s[0] == '-' && ReadNat(s[1..]) == Some((v, rest))
    ensures ReadInt(s) == Some((-(v as int), rest))
  {
  }

  lemma ReadIntPlain(s: string, v: nat, rest: string)
    requires s != [] && s[0] != '-' && ReadNat(s) == Some((v, rest))
    ensures ReadInt(s) == Some((v, rest))
  {
  }

  lemma {:induction false} ReadListToString(items: seq<int>, rest: string)
    requires rest != [] && rest[0] == '('
    ensures ReadItems(ListToString(items) + rest) == Some((items, rest))
  {
    if items != [] {
      var after := ListToString(items[1..]) + rest;
      var s := ListToString(items) + rest;
      SplitFirstItem(items, rest);
      ReadShowInt(items[0], " " + after);
      ReadListToString(items[1..], rest);
      ReadItemsCons(s, items[0], " " + after, items[1..], rest);
      assert [items[0]] + items[1..] == items;
    } else {
      assert ListToString(items) + rest == rest;
    }
  }

  lemma SplitFirstItem(items: seq<int>, rest: string)
    requires items != []
    ensures ListToString(items) + rest == ShowInt(items[0]) + (" " + (ListToString(items[1..]) + rest))
    ensures (ListToString(items) + rest)[0] != '('
    ensures (" " + (ListToString(items[1..]) + rest))[1..] == ListToString(items[1..]) + rest
  {
    var h := ShowInt(items[0]);
    var l := ListToString(items[1..]);
    assert ListToString(items) == h + " " + l;
    SpaceAssoc(h, l, rest);
    ShowIntStart(items[0]);
  }

  lemma SpaceAssoc(h: string, l: string, rest: string)
    ensures (h + " " + l) + rest == h + (" " + (l + rest))
  {
  }

  /** One item read off the front, then the rest of the items. */
  lemma ReadItemsCons(s: string, v: int, rest: string, vs: seq<int>, tail: string)
    requires s != [] && s[0] != '('
    requires ReadInt(s) == Some((v, rest)) && rest != [] && rest[0] == ' '
    requires ReadItems(rest[1..]) == Some((vs, tail))
    ensures ReadItems(s) == Some(([v] + vs, tail))
  {
  }

  lemma ShowIntStart(i: int)
    ensures ShowInt(i) != [] && ShowInt(i)[0] != '('
  {
    if i >= 0 {
      assert IsDigit(ShowNat(i)[0]);
    }
  }

  /** The text of a report line reads back as the itemset and count it was written from. */
  lemma ReadBackLine(items: seq<int>, count: nat)
    ensures ParseLine(ListToString(items) + "(" + ShowInt(count) + ")\n") == Some((items, count as int))
  {
    var a, n := ListToString(items), ShowInt(count);
    var tail := "(" + n + ")\n";
    ReadListToString(items, tail);
    ReadShowInt(count, ")\n");
    LineParts(a, n);
    ParseLineOf(a + tail, items, tail, count);
  }

  /** The line regrouped as the itemset text followed by the parenthesised count. */
  lemma LineParts(a: string, n: string)
    ensures a + "(" + n + ")\n" == a + ("(" + n + ")\n")
    ensures ("(" + n + ")\n")[0] == '(' && ("(" + n + ")\n")[1..] == n + ")\n"
  {
  }

  lemma ParseLineOf(s: string, items: seq<int>, tail: string, count: int)
    requires ReadItems(s) == Some((items, tail))
    requires tail != [] && tail[0] == '(' && ReadInt(tail[1..]) == Some((count, ")\n"))
    ensures ParseLine(s) == Some((items, count))
  {
  }

  /**
   * When the keys are the table's keys, each once, the report holds a line
   * for every key, in strictly ascending comparator order.
   */
  lemma ReportContents(table: Table, keys: seq<seq<int>>)
    requires Distinct(keys) && forall k :: k in table <==> k in keys
    ensures var lines := Report(table, keys);
      && (forall k :: k in table ==> exists i :: 0 <= i < |lines| && ParseLine(lines[i]).value.0 == k)
      && (forall i, j :: 0 <= i < j < |lines| ==> Compare(ParseLine(lines[i]).value.0, ParseLine(lines[j]).value.0) == -1)
  {
    var lines := Report(table, keys);
    var sorted := SortKeys(keys);
    SortedKeysInTable(table, keys);
    SortKeysSorted(keys);
    forall i | 0 <= i < |lines| ensures ParseLine(lines[i]).value.0 == sorted[i] {
      assert lines[i] == FormatLine(sorted[i], table[sorted[i]]);
    }
    forall k | k in table ensures exists i :: 0 <= i < |lines| && ParseLine(lines[i]).value.0 == k {
      assert k in multiset(sorted);
      var i :| 0 <= i < |sorted| && sorted[i] == k;
    }
    forall i, j | 0 <= i < j < |lines|
      ensures Compare(ParseLine(lines[i]).value.0, ParseLine(lines[j]).value.0) == -1
    {
      assert LexLess(sorted[i], sorted[j]);
    }
  }
}
