/** Ordering records by month: the order `ORDER BY month` delivers, and the
    `[...data].sort((a, b) => a.month - b.month)` copy the page sorts for its
    table and chart. JavaScript's sort is stable, so rows of one month keep
    their relative order. */
module Ordering {
  import opened Records

  predicate SortedByMonth(s: seq<Record>) {
    forall i, j :: 0 <= i < j < |s| ==> s[i].month <= s[j].month
  }

  /** The rows of s for month m, in the order s holds them. */
  function OfMonth(s: seq<Record>, m: int): seq<Record> {
    if |s| == 0 then []
    else (if s[0].month == m then [s[0]] else []) + OfMonth(s[1..], m)
  }

  lemma OfMonthCons(x: Record, s: seq<Record>, m: int)
    ensures OfMonth([x] + s, m) == (if x.month == m then [x] else []) + OfMonth(s, m)
  {
    assert ([x] + s)[1..] == s;
  }

  /** Places x before the first row whose month is not smaller. */
  function InsertByMonth(x: Record, s: seq<Record>): (r: seq<Record>)
    requires SortedByMonth(s)
    ensures SortedByMonth(r)
    ensures multiset(r) == multiset(s) + multiset{x}
  {
    if |s| == 0 then
      [x]
    else if x.month <= s[0].month then
      [x] + s
    else
      var rest := InsertByMonth(x, s[1..]);
      InsertSortedStep(x, s, rest);
      [s[0]] + rest
  }

  lemma InsertSortedStep(x: Record, s: seq<Record>, rest: seq<Record>)
    requires SortedByMonth(s) && |s| > 0 && s[0].month < x.month
    requires SortedByMonth(rest)
    requires multiset(rest) == multiset(s[1..]) + multiset{x}
    ensures SortedByMonth([s[0]] + rest)
    ensures multiset([s[0]] + rest) == multiset(s) + multiset{x}
  {
    assert s == [s[0]] + s[1..];
    var r := [s[0]] + rest;
    forall j | 0 < j < |r|
      ensures s[0].month <= r[j].month
    {
      assert r[j] == rest[j - 1];
      assert r[j] in multiset(rest);
    }
  }

  /** Two prefixes, at most one of them non-empty, commute. Concatenation
      bookkeeping, stated on its own so that the proof using it stays small. */
  lemma SwapPrefixes(r: seq<Record>, first: seq<Record>, second: seq<Record>, rest: seq<Record>, s: seq<Record>)
    requires first == [] || second == []
    requires r == first + (second + rest)
    requires s == first + rest
    ensures r == second + s
  {
  }

  /** Inserting x adds it ahead of the rows of its own month and leaves the
      rows of every other month as they were. */
  lemma {:induction false} InsertKeepsMonthOrder(x: Record, s: seq<Record>, m: int)
    requires SortedByMonth(s)
    ensures OfMonth(InsertByMonth(x, s), m) == (if x.month == m then [x] else []) + OfMonth(s, m)
  {
    if |s| == 0 {
      OfMonthCons(x, [], m);
    } else if x.month <= s[0].month {
      OfMonthCons(x, s, m);
    } else {
      var rest := InsertByMonth(x, s[1..]);
      var first := if s[0].month == m then [s[0]] else [];
      var second := if x.month == m then [x] else [];
      assert InsertByMonth(x, s) == [s[0]] + rest;
      InsertKeepsMonthOrder(x, s[1..], m);
      OfMonthCons(s[0], rest, m);
      OfMonthCons(s[0], s[1..], m);
      assert s == [s[0]] + s[1..];
      SwapPrefixes(OfMonth([s[0]] + rest, m), first, second, OfMonth(s[1..], m), OfMonth(s, m));
    }
  }

  /** A stable sort by month. */
  function SortByMonth(s: seq<Record>): (r: seq<Record>)
    ensures SortedByMonth(r)
    ensures multiset(r) == multiset(s)
  {
    if |s| == 0 then []
    else
      assert s == [s[0]] + s[1..];
      InsertByMonth(s[0], SortByMonth(s[1..]))
  }

  /** The sort is stable: for every month, its rows come out in input order. */
  lemma {:induction false} SortIsStable(s: seq<Record>, m: int)
    ensures OfMonth(SortByMonth(s), m) == OfMonth(s, m)
  {
    if |s| > 0 {
      SortIsStable(s[1..], m);
      InsertKeepsMonthOrder(s[0], SortByMonth(s[1..]), m);
      OfMonthCons(s[0], s[1..], m);
      assert s == [s[0]] + s[1..];
    }
  }

  /** Two rows out of month order come back swapped. */
  lemma SortSwapsPair(a: Record, b: Record)
    requires b.month < a.month
    ensures SortByMonth([a, b]) == [b, a]
  {
    assert [a, b][1..] == [b];
    assert [b][1..] == [];
  }
}
