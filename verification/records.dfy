/** The `financial_records` table: rows (user_id, year, month, amount),
    grouped into partitions, one per (user, year). */
module Records {

  /** An `Amount` value, in cents. The server stores whatever the worksheet
      held; `NoNumber` stands for a value `parseFloat` cannot read. */
  datatype Amount = Cents(cents: int) | NoNumber

  datatype Record = Record(user: string, year: int, month: int, amount: Amount)

  /** The table's rows; SQL has no row order, the model keeps insertion order. */
  type Table = seq<Record>

  /** `user_id = ? AND year = ?`, on keys already in the form the database
      compares them in. */
  predicate InPartition(r: Record, user: string, year: int) {
    r.user == user && r.year == year
  }

  /** `WHERE user_id = ? AND year = ?`: the partition's rows, in table order. */
  function Partition(t: Table, user: string, year: int): (p: Table)
    ensures forall r :: r in p <==> r in t && InPartition(r, user, year)
    ensures |p| <= |t|
  {
    if |t| == 0 then []
    else (if InPartition(t[0], user, year) then [t[0]] else []) + Partition(t[1..], user, year)
  }

  /** `DELETE ... WHERE user_id = ? AND year = ?`: every other row, in table order. */
  function Purge(t: Table, user: string, year: int): (p: Table)
    ensures forall r :: r in p <==> r in t && !InPartition(r, user, year)
    ensures |p| <= |t|
  {
    if |t| == 0 then []
    else (if InPartition(t[0], user, year) then [] else [t[0]]) + Purge(t[1..], user, year)
  }

  /** Every row lies either in the partition or in what the purge keeps. */
  lemma SplitStep(t: Table, taken: Table, kept: Table, p: Table, q: Table, p': Table, q': Table)
    requires |t| > 0
    requires multiset(taken) + multiset(kept) == multiset{t[0]}
    requires p == taken + p' && q == kept + q'
    requires multiset(p') + multiset(q') == multiset(t[1..])
    ensures multiset(p) + multiset(q) == multiset(t)
  {
    assert t == [t[0]] + t[1..];
  }

  /** Every row lies either in the partition or in what the purge keeps. */
  lemma {:induction false} PartitionPurgeSplit(t: Table, user: string, year: int)
    ensures multiset(Partition(t, user, year)) + multiset(Purge(t, user, year)) == multiset(t)
  {
    if |t| > 0 {
      var inside := InPartition(t[0], user, year);
      var taken: Table := if inside then [t[0]] else [];
      var kept: Table := if inside then [] else [t[0]];
      PartitionPurgeSplit(t[1..], user, year);
      SplitStep(t, taken, kept, Partition(t, user, year), Purge(t, user, year),
                Partition(t[1..], user, year), Purge(t[1..], user, year));
    }
  }

  /** Concatenation bookkeeping, not a property of the model: stated on its
      own so that the proof using it stays small. */
  lemma SplitAfterHead(x: Table, head: Table, p: Table, q: Table, y: Table)
    requires x == head + (p + q)
    requires y == head + p
    ensures x == y + q
  {
  }

  lemma {:induction false} PartitionAppend(a: Table, b: Table, user: string, year: int)
    ensures Partition(a + b, user, year) == Partition(a, user, year) + Partition(b, user, year)
  {
    if |a| > 0 {
      var head: Table := if InPartition(a[0], user, year) then [a[0]] else [];
      assert (a + b)[0] == a[0] && (a + b)[1..] == a[1..] + b;
      assert Partition(a + b, user, year) == head + Partition(a[1..] + b, user, year);
      PartitionAppend(a[1..], b, user, year);
      SplitAfterHead(Partition(a + b, user, year), head, Partition(a[1..], user, year),
                  Partition(b, user, year), Partition(a, user, year));
    } else {
      assert a + b == b;
    }
  }

  lemma {:induction false} PurgeAppend(a: Table, b: Table, user: string, year: int)
    ensures Purge(a + b, user, year) == Purge(a, user, year) + Purge(b, user, year)
  {
    if |a| > 0 {
      var head: Table := if InPartition(a[0], user, year) then [] else [a[0]];
      assert (a + b)[0] == a[0] && (a + b)[1..] == a[1..] + b;
      assert Purge(a + b, user, year) == head + Purge(a[1..] + b, user, year);
      PurgeAppend(a[1..], b, user, year);
      SplitAfterHead(Purge(a + b, user, year), head, Purge(a[1..], user, year),
                  Purge(b, user, year), Purge(a, user, year));
    } else {
      assert a + b == b;
    }
  }

  /** A table whose rows all belong to the partition: purging empties it,
      selecting the partition gives it back whole. */
  lemma {:induction false} WithinPartition(t: Table, user: string, year: int)
    requires forall i :: 0 <= i < |t| ==> InPartition(t[i], user, year)
    ensures Purge(t, user, year) == []
    ensures Partition(t, user, year) == t
  {
    if |t| > 0 {
      WithinPartition(t[1..], user, year);
    }
  }

  /** A table inside one partition has nothing in any other. */
  lemma {:induction false} NothingOfOthers(t: Table, user: string, year: int, user': string, year': int)
    requires forall i :: 0 <= i < |t| ==> InPartition(t[i], user, year)
    requires user != user' || year != year'
    ensures Partition(t, user', year') == []
  {
    if |t| > 0 {
      NothingOfOthers(t[1..], user, year, user', year');
    }
  }

  /** Deleting a partition leaves every other partition as it was. */
  lemma {:induction false} PurgeKeepsOthers(t: Table, user: string, year: int, user': string, year': int)
    requires user != user' || year != year'
    ensures Partition(Purge(t, user, year), user', year') == Partition(t, user', year')
  {
    if |t| > 0 {
      PurgeKeepsOthers(t[1..], user, year, user', year');
      var head := if InPartition(t[0], user, year) then [] else [t[0]];
      PartitionAppend(head, Purge(t[1..], user, year), user', year');
    }
  }

  /** After the delete, nothing of the partition is left. */
  lemma {:induction false} PurgeEmptiesPartition(t: Table, user: string, year: int)
    ensures Partition(Purge(t, user, year), user, year) == []
  {
    if |t| > 0 {
      PurgeEmptiesPartition(t[1..], user, year);
      var head := if InPartition(t[0], user, year) then [] else [t[0]];
      PartitionAppend(head, Purge(t[1..], user, year), user, year);
    }
  }

  /** Purging twice is purging once. */
  lemma {:induction false} PurgeIdempotent(t: Table, user: string, year: int)
    ensures Purge(Purge(t, user, year), user, year) == Purge(t, user, year)
  {
    if |t| > 0 {
      PurgeIdempotent(t[1..], user, year);
      var head := if InPartition(t[0], user, year) then [] else [t[0]];
      PurgeAppend(head, Purge(t[1..], user, year), user, year);
    }
  }
}
