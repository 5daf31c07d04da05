/** `normalizedBatch`: the entries of a batch in one global order of rows. */
module SortedBatch {
  import opened CounterRows
  import opened Ledger

  /** `localeCompare` as a strict order on strings that every instance shares. */
  type Order = (string, string) -> bool

  ghost predicate StrictTotal(before: Order) {
    && (forall a :: !before(a, a))
    && (forall a, b :: a == b || before(a, b) || before(b, a))
    && (forall a, b, c :: before(a, b) && before(b, c) ==> before(a, c))
  }

  /** Days first, then stored keys. */
  predicate RowBefore(before: Order, a: Row, b: Row) {
    before(a.day, b.day) || (a.day == b.day && before(a.key, b.key))
  }

  lemma RowBeforeIsStrictTotal(before: Order, a: Row, b: Row, c: Row)
    requires StrictTotal(before)
    ensures !RowBefore(before, a, a)
    ensures a == b || RowBefore(before, a, b) || RowBefore(before, b, a)
    ensures RowBefore(before, a, b) && RowBefore(before, b, c) ==> RowBefore(before, a, c)
  {
  }

  function Insert(before: Order, e: Entry, batch: seq<Entry>): (r: seq<Entry>)
    ensures multiset(r) == multiset([e] + batch)
  {
    if batch == [] then [e]
    else if RowBefore(before, e.row, batch[0].row) then [e] + batch
    else
      assert batch == [batch[0]] + batch[1..];
      [batch[0]] + Insert(before, e, batch[1..])
  }

  function Sort(before: Order, batch: seq<Entry>): (r: seq<Entry>)
    ensures multiset(r) == multiset(batch)
  {
    if batch == [] then []
    else
      assert batch == [batch[0]] + batch[1..];
      Insert(before, batch[0], Sort(before, batch[1..]))
  }

  /** Strictly increasing rows. */
  ghost predicate Increasing(before: Order, batch: seq<Entry>) {
    forall i, j | 0 <= i < j < |batch| :: RowBefore(before, batch[i].row, batch[j].row)
  }

  /** What stands in front of a batch must come before each of its rows. */
  lemma PrependIncreasing(before: Order, e: Entry, batch: seq<Entry>)
    requires Increasing(before, batch) && forall x <- batch :: RowBefore(before, e.row, x.row)
    ensures Increasing(before, [e] + batch)
  {
  }

  lemma FirstIsLeast(before: Order, e: Entry, batch: seq<Entry>)
    requires StrictTotal(before) && Increasing(before, batch) && batch != [] && RowBefore(before, e.row, batch[0].row)
    ensures forall x <- batch :: RowBefore(before, e.row, x.row)
  {
    forall x <- batch
      ensures RowBefore(before, e.row, x.row)
    {
      RowBeforeIsStrictTotal(before, e.row, batch[0].row, x.row);
    }
  }

  lemma {:induction false} InsertIncreasing(before: Order, e: Entry, batch: seq<Entry>)
    requires StrictTotal(before) && Increasing(before, batch)
    requires forall x <- batch :: x.row != e.row
    ensures Increasing(before, Insert(before, e, batch))
  {
    if batch != [] && !RowBefore(before, e.row, batch[0].row) {
      var rest := Insert(before, e, batch[1..]);
      InsertIncreasing(before, e, batch[1..]);
      forall x <- rest
        ensures RowBefore(before, batch[0].row, x.row)
      {
        assert x in multiset(rest);
        assert x == e || x in batch[1..];
        RowBeforeIsStrictTotal(before, batch[0].row, e.row, e.row);
      }
      PrependIncreasing(before, batch[0], rest);
    } else if batch != [] {
      FirstIsLeast(before, e, batch);
      PrependIncreasing(before, e, batch);
    }
  }

  /** Sorting a batch with distinct rows gives strictly increasing rows. */
  lemma {:induction false} SortIncreasing(before: Order, batch: seq<Entry>)
    requires StrictTotal(before) && DistinctRows(batch)
    ensures Increasing(before, Sort(before, batch))
  {
    if batch != [] {
      SortIncreasing(before, batch[1..]);
      var rest := Sort(before, batch[1..]);
      forall x <- rest
        ensures x.row != batch[0].row
      {
        assert x in multiset(rest);
        assert x in batch[1..];
      }
      InsertIncreasing(before, batch[0], rest);
    }
  }

  lemma IncreasingIsDistinct(before: Order, batch: seq<Entry>)
    requires StrictTotal(before) && Increasing(before, batch)
    ensures DistinctRows(batch)
  {
    forall i, j | 0 <= i < j < |batch|
      ensures batch[i].row != batch[j].row
    {
      RowBeforeIsStrictTotal(before, batch[i].row, batch[j].row, batch[j].row);
    }
  }

  /** A multiset read off a batch that adds up over concatenation. */
  ghost predicate Additive<T>(f: seq<Entry> -> multiset<T>) {
    forall a, b :: f(a + b) == f(a) + f(b)
  }

  lemma {:induction false} InsertKeepsAdditive<T>(before: Order, e: Entry, batch: seq<Entry>, f: seq<Entry> -> multiset<T>)
    requires Additive(f)
    ensures f(Insert(before, e, batch)) == f([e]) + f(batch)
  {
    if batch == [] {
      assert [e] + batch == [e];
    } else {
      var head, tail := [batch[0]], batch[1..];
      InsertKeepsAdditive(before, e, tail, f);
      assert batch == head + tail;
    }
  }

  lemma {:induction false} SortKeepsAdditive<T>(before: Order, batch: seq<Entry>, f: seq<Entry> -> multiset<T>)
    requires Additive(f)
    ensures f(Sort(before, batch)) == f(batch)
  {
    if batch != [] {
      assert batch == [batch[0]] + batch[1..];
      SortKeepsAdditive(before, batch[1..], f);
      InsertKeepsAdditive(before, batch[0], Sort(before, batch[1..]), f);
    }
  }

  /** The order of a batch does not change, up to order, what it is refused for. */
  lemma SortKeepsExhausted(before: Order, batch: seq<Entry>, used: map<Row, int>)
    ensures multiset(ExhaustedBy(Sort(before, batch), used)) == multiset(ExhaustedBy(batch, used))
  {
    var f: seq<Entry> -> multiset<ExhaustedCounter> := b => multiset(ExhaustedBy(b, used));
    forall a, b
      ensures f(a + b) == f(a) + f(b)
    {
      ExhaustedByConcat(a, b, used);
    }
    SortKeepsAdditive(before, batch, f);
  }

  lemma SameMembersSameUnits(a: seq<Entry>, b: seq<Entry>, row: Row)
    requires DistinctRows(a) && DistinctRows(b)
    requires forall e :: e in a <==> e in b
    ensures UnitsFor(a, row) == UnitsFor(b, row)
  {
    if i :| 0 <= i < |a| && a[i].row == row {
      assert a[i] in b;
      var j :| 0 <= j < |b| && b[j] == a[i];
      UnitsForEntry(a, i);
      UnitsForEntry(b, j);
    } else {
      UnitsForAbsent(a, row);
      UnitsForAbsent(b, row);
    }
  }

  lemma SameMultisetSameMembers(a: seq<Entry>, b: seq<Entry>)
    requires multiset(a) == multiset(b)
    ensures forall e :: e in a <==> e in b
    ensures |a| == |b|
  {
    forall e
      ensures e in a <==> e in b
    {
      assert e in a <==> e in multiset(a);
      assert e in b <==> e in multiset(b);
    }
    assert |multiset(a)| == |a| && |multiset(b)| == |b|;
  }

  /** Nor what it charges to a row. */
  lemma SortKeepsUnits(before: Order, batch: seq<Entry>, row: Row)
    requires StrictTotal(before) && DistinctRows(batch)
    ensures UnitsFor(Sort(before, batch), row) == UnitsFor(batch, row)
  {
    SortKeepsDistinctness(before, batch);
    SameMultisetSameMembers(Sort(before, batch), batch);
    SameMembersSameUnits(Sort(before, batch), batch, row);
  }

  lemma SortKeepsDistinctness(before: Order, batch: seq<Entry>)
    requires StrictTotal(before)
    ensures DistinctRows(Sort(before, batch)) <==> DistinctRows(batch)
  {
    if DistinctRows(batch) {
      SortIncreasing(before, batch);
      IncreasingIsDistinct(before, Sort(before, batch));
    } else if DistinctRows(Sort(before, batch)) {
      DistinctnessFollowsTheMultiset(Sort(before, batch), batch);
    }
  }

  /** Two places that agree on their row show up in the multiset of entries. */
  lemma DistinctnessFollowsTheMultiset(a: seq<Entry>, b: seq<Entry>)
    requires multiset(a) == multiset(b) && DistinctRows(a)
    ensures DistinctRows(b)
  {
    forall i, j | 0 <= i < j < |b|
      ensures b[i].row != b[j].row
    {
      if b[i].row == b[j].row {
        assert b[i] in multiset(b) && b[j] in multiset(b);
        assert b[i] in a && b[j] in a;
        assert b[i] == b[j];
        TwicePresent(b, i, j);
        OncePresent(a, b[i]);
        assert false;
      }
    }
  }

  lemma TwicePresent(b: seq<Entry>, i: nat, j: nat)
    requires i < j < |b| && b[i] == b[j]
    ensures multiset(b)[b[i]] >= 2
  {
    var left, right := b[..j], b[j..];
    assert b == left + right;
    assert left[i] == b[i] && right[0] == b[i];
    assert b[i] in multiset(left) && b[i] in multiset(right);
  }

  lemma {:induction false} OncePresent(a: seq<Entry>, e: Entry)
    requires DistinctRows(a)
    ensures multiset(a)[e] <= 1
  {
    if a != [] {
      OncePresent(a[1..], e);
      assert a == [a[0]] + a[1..];
      if a[0] == e {
        assert e !in a[1..];
      }
    }
  }
}
