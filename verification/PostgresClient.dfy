/**
 * The methods of `postgres-counter-store.ts` statement by statement, for a client that nobody
 * interrupts; `Postgres` lets the same statements of many clients interleave.
 */
module PostgresClient {
  import opened Calendar
  import opened CounterRows
  import opened Ledger
  import opened LedgerHistory
  import opened SortedBatch

  const PRUNE_INTERVAL_MS := MS_PER_HOUR

  /** The rows that a transaction sees: its own writes in front of the committed ones. */
  function Seen(rows: map<Row, int>, writes: map<Row, int>): map<Row, int> {
    rows + writes
  }

  lemma ChargeStep(batch: seq<Entry>, rows: map<Row, int>, i: nat)
    requires i < |batch|
    ensures var charged := Charge(batch[..i], rows);
            Charge(batch[..i + 1], rows) == charged[batch[i].row := Get(charged, batch[i].row) + batch[i].amount]
  {
    assert batch[..i + 1][..i] == batch[..i];
  }

  ghost predicate SameUse(a: map<Row, int>, b: map<Row, int>) {
    forall row :: Get(a, row) == Get(b, row)
  }

  lemma OneRowMore(a: map<Row, int>, b: map<Row, int>, row: Row, amount: int, a': map<Row, int>, b': map<Row, int>)
    requires SameUse(a, b) && row in a
    requires a' == a[row := a[row] + amount] && b' == b[row := Get(b, row) + amount]
    ensures SameUse(a', b')
  {
    assert Get(a, row) == Get(b, row);
    forall other
      ensures Get(a', other) == Get(b', other)
    {
      assert Get(a, other) == Get(b, other);
    }
  }

  lemma SameRows(a: map<Row, int>, b: map<Row, int>)
    requires SameUse(a, b) && forall row :: row in a <==> row in b
    ensures a == b
  {
    forall row | row in a
      ensures a[row] == b[row]
    {
      assert Get(a, row) == Get(b, row);
    }
  }

  lemma KeysCharged(batch: seq<Entry>, rows: map<Row, int>, keys: set<Row>)
    requires forall row :: row in keys <==> row in rows || HasRow(batch, |batch|, row)
    ensures forall row :: row in Charge(batch, rows) <==> row in keys
  {
    forall row
      ensures row in Charge(batch, rows) <==> row in keys
    {
      ChargeAdds(batch, rows, row);
    }
  }

  /** Every row of the first `n` entries is there, and none has another use than before. */
  ghost predicate Prepared(batch: seq<Entry>, n: nat, rows: map<Row, int>, writes: map<Row, int>)
    requires n <= |batch|
  {
    && (forall row :: row in Seen(rows, writes) <==> row in rows || HasRow(batch, n, row))
    && SameUse(Seen(rows, writes), rows)
  }

  function WritesWith(rows: map<Row, int>, writes: map<Row, int>, row: Row): map<Row, int> {
    if row in Seen(rows, writes) then writes else writes[row := 0]
  }

  lemma PrepareStep(batch: seq<Entry>, i: nat, rows: map<Row, int>, writes: map<Row, int>)
    requires i < |batch| && Prepared(batch, i, rows, writes)
    ensures Prepared(batch, i + 1, rows, WritesWith(rows, writes, batch[i].row))
  {
    var seen, up := Seen(rows, writes), Seen(rows, WritesWith(rows, writes, batch[i].row));
    forall row
      ensures row in up <==> row in rows || HasRow(batch, i + 1, row)
      ensures Get(up, row) == Get(rows, row)
    {
      assert Get(seen, row) == Get(rows, row);
    }
  }

  lemma ExhaustedStep(batch: seq<Entry>, i: nat, rows: map<Row, int>)
    requires i < |batch|
    ensures ExhaustedBy(batch[..i + 1], rows)
         == ExhaustedBy(batch[..i], rows) + if Over(batch[i], Get(rows, batch[i].row)) then [Report(batch[i])] else []
  {
    assert batch[..i + 1][..i] == batch[..i];
  }

  lemma PreparedCovers(batch: seq<Entry>, rows: map<Row, int>, writes: map<Row, int>)
    requires Prepared(batch, |batch|, rows, writes)
    ensures ChargedTo(batch, 0, rows, writes, Seen(rows, writes).Keys)
    ensures forall i | 0 <= i < |batch| :: batch[i].row in Seen(rows, writes).Keys
  {
    assert batch[..0] == [];
    forall i | 0 <= i < |batch|
      ensures batch[i].row in Seen(rows, writes)
    {
      assert HasRow(batch, |batch|, batch[i].row);
    }
  }

  /** The same rows, with the first `i` entries charged. */
  ghost predicate ChargedTo(batch: seq<Entry>, i: nat, rows: map<Row, int>, writes: map<Row, int>, keys: set<Row>)
    requires i <= |batch|
  {
    Seen(rows, writes).Keys == keys && SameUse(Seen(rows, writes), Charge(batch[..i], rows))
  }

  lemma ChargedStep(batch: seq<Entry>, i: nat, rows: map<Row, int>, writes: map<Row, int>, keys: set<Row>)
    requires i < |batch| && ChargedTo(batch, i, rows, writes, keys) && batch[i].row in keys
    ensures var row := batch[i].row;
            ChargedTo(batch, i + 1, rows, writes[row := Seen(rows, writes)[row] + batch[i].amount], keys)
  {
    var seen, row := Seen(rows, writes), batch[i].row;
    var up := Seen(rows, writes[row := seen[row] + batch[i].amount]);
    assert up == seen[row := seen[row] + batch[i].amount];
    ChargeStep(batch, rows, i);
    OneRowMore(seen, Charge(batch[..i], rows), row, batch[i].amount, up, Charge(batch[..i + 1], rows));
  }

  lemma AllCharged(batch: seq<Entry>, rows: map<Row, int>, before: map<Row, int>, writes: map<Row, int>)
    requires Prepared(batch, |batch|, rows, before) && ChargedTo(batch, |batch|, rows, writes, Seen(rows, before).Keys)
    ensures rows + writes == Charge(batch, rows)
  {
    assert batch[..|batch|] == batch;
    KeysCharged(batch, rows, Seen(rows, before).Keys);
    SameRows(Seen(rows, writes), Charge(batch, rows));
  }

  // The throttle of sweeps

  /** Whether a call at `now` starts a sweep, and the mark it leaves. */
  predicate StartsSweep(prunedAt: int, now: Time) {
    now - prunedAt >= PRUNE_INTERVAL_MS
  }

  function Mark(prunedAt: int, now: Time): int {
    if StartsSweep(prunedAt, now) then now else prunedAt
  }

  /** The mark after calls at these moments, in whatever order the clock gave them. */
  function MarkAfter(prunedAt: int, moments: seq<Time>): int {
    if moments == [] then prunedAt
    else Mark(MarkAfter(prunedAt, moments[..|moments| - 1]), moments[|moments| - 1])
  }

  /** Whether the call at place `i` starts a sweep. */
  predicate SweepsAt(prunedAt: int, moments: seq<Time>, i: nat)
    requires i < |moments|
  {
    StartsSweep(MarkAfter(prunedAt, moments[..i]), moments[i])
  }

  lemma SweepsAtPrefix(prunedAt: int, moments: seq<Time>, n: nat, i: nat)
    requires i < n <= |moments|
    ensures SweepsAt(prunedAt, moments[..n], i) == SweepsAt(prunedAt, moments, i)
  {
    assert moments[..n][..i] == moments[..i];
  }

  /** The mark is the latest of the first mark and the sweeps so far. */
  lemma {:induction false} MarkIsLatest(prunedAt: int, moments: seq<Time>)
    ensures MarkAfter(prunedAt, moments) >= prunedAt
    ensures forall i | 0 <= i < |moments| && SweepsAt(prunedAt, moments, i) :: moments[i] <= MarkAfter(prunedAt, moments)
    ensures MarkAfter(prunedAt, moments) == prunedAt
            || exists i | 0 <= i < |moments| && SweepsAt(prunedAt, moments, i) :: moments[i] == MarkAfter(prunedAt, moments)
  {
    if moments != [] {
      var n := |moments| - 1;
      MarkIsLatest(prunedAt, moments[..n]);
      forall i | 0 <= i < n
        ensures SweepsAt(prunedAt, moments[..n], i) == SweepsAt(prunedAt, moments, i)
      {
        SweepsAtPrefix(prunedAt, moments, n, i);
      }
      var mark := MarkAfter(prunedAt, moments[..n]);
      if StartsSweep(mark, moments[n]) {
        assert SweepsAt(prunedAt, moments, n);
      } else if mark != prunedAt {
        var i :| 0 <= i < n && SweepsAt(prunedAt, moments[..n], i) && moments[..n][i] == mark;
        assert SweepsAt(prunedAt, moments, i) && moments[i] == mark;
      }
    }
  }

  predicate HourApart(earlier: int, later: int) {
    later - earlier >= 3_600_000
  }

  /**
   * A call starts a sweep exactly when it comes at least an hour after the first mark and after every
   * earlier sweep. So two sweeps are an hour apart, and none is skipped.
   */
  lemma SweepsExactlyWhenDue(prunedAt: int, moments: seq<Time>, j: nat)
    requires j < |moments|
    ensures SweepsAt(prunedAt, moments, j) <==>
            && HourApart(prunedAt, moments[j])
            && forall i | 0 <= i < j && SweepsAt(prunedAt, moments, i) :: HourApart(moments[i], moments[j])
  {
    MarkIsLatest(prunedAt, moments[..j]);
    forall i | 0 <= i < j
      ensures SweepsAt(prunedAt, moments[..j], i) == SweepsAt(prunedAt, moments, i)
    {
      SweepsAtPrefix(prunedAt, moments, j, i);
    }
  }

  class PostgresDailyCounterStore {
    /** The order behind `localeCompare`. */
    const before: Order
    /** The committed tables, and what the open transaction has written. */
    var rows: map<Row, int>
    var receipts: map<Row, string>
    var writes: map<Row, int>
    var receiptWrites: map<Row, string>
    var prunedAt: int

    constructor (before: Order)
      ensures this.before == before && rows == map[] && receipts == map[] && prunedAt == 0 && Idle()
    {
      this.before := before;
      rows, receipts, writes, receiptWrites, prunedAt := map[], map[], map[], map[], 0;
    }

    /** No transaction is open. */
    predicate Idle()
      reads this
    {
      writes == map[] && receiptWrites == map[]
    }

    function Tables(): State
      reads this
    {
      State(rows, receipts)
    }

    // Statements

    method Commit()
      modifies this`rows, this`receipts, this`writes, this`receiptWrites
      ensures Idle() && rows == old(rows + writes) && receipts == old(receipts + receiptWrites)
    {
      rows, receipts := rows + writes, receipts + receiptWrites;
      writes, receiptWrites := map[], map[];
    }

    method Rollback()
      modifies this`writes, this`receiptWrites
      ensures Idle()
    {
      writes, receiptWrites := map[], map[];
    }

    /** `INSERT ... VALUES (..., 0) ON CONFLICT DO NOTHING`. */
    method InsertIfAbsent(row: Row)
      modifies this`writes
      ensures writes == WritesWith(rows, old(writes), row)
    {
      if row !in Seen(rows, writes) {
        writes := writes[row := 0];
      }
    }

    /** `UPDATE ... SET used = used + amount`. */
    method Add(row: Row, amount: int)
      modifies this`writes
      ensures var seen := old(Seen(rows, writes));
              writes == if row in seen then old(writes)[row := seen[row] + amount] else old(writes)
    {
      var seen := Seen(rows, writes);
      if row in seen {
        writes := writes[row := seen[row] + amount];
      }
    }

    /** The charge of one entry, behind those before it. */
    method AddEntry(batch: seq<Entry>, i: nat, ghost keys: set<Row>)
      requires i < |batch| && ChargedTo(batch, i, rows, writes, keys) && batch[i].row in keys
      modifies this`writes
      ensures ChargedTo(batch, i + 1, rows, writes, keys)
    {
      ChargedStep(batch, i, rows, writes, keys);
      Add(batch[i].row, batch[i].amount);
    }

    // The loops of `consumeBatch`

    /** Lock and check every entry. */
    method CheckEach(batch: seq<Entry>) returns (exhausted: seq<ExhaustedCounter>)
      requires writes == map[]
      modifies this`writes
      ensures exhausted == ExhaustedBy(batch, rows) && Prepared(batch, |batch|, rows, writes)
    {
      exhausted := [];
      assert rows + writes == rows;
      for i := 0 to |batch|
        invariant exhausted == ExhaustedBy(batch[..i], rows)
        invariant Prepared(batch, i, rows, writes)
      {
        var entry := batch[i];
        PrepareStep(batch, i, rows, writes);
        ExhaustedStep(batch, i, rows);
        InsertIfAbsent(entry.row);
        var used := Get(Seen(rows, writes), entry.row);
        assert used == Get(rows, entry.row);
        if entry.limit <= 0 || used + entry.amount > entry.limit {
          exhausted := exhausted + [Report(entry)];
        }
      }
      assert batch[..|batch|] == batch;
    }

    /** Charge every entry. */
    method ChargeEach(batch: seq<Entry>)
      requires Prepared(batch, |batch|, rows, writes)
      modifies this`writes
      ensures rows + writes == Charge(batch, rows)
    {
      ghost var prepared := writes;
      ghost var keys := Seen(rows, writes).Keys;
      PreparedCovers(batch, rows, writes);
      for i := 0 to |batch|
        invariant ChargedTo(batch, i, rows, writes, keys)
      {
        AddEntry(batch, i, keys);
      }
      AllCharged(batch, rows, prepared, writes);
    }

    /** `consumeBatch`: what the batch is refused for, or every entry charged. */
    method ConsumeBatch(batch: seq<Entry>) returns (exhausted: seq<ExhaustedCounter>)
      requires writes == map[]
      modifies this`writes
      ensures exhausted == ExhaustedBy(batch, rows)
      ensures exhausted == [] ==> rows + writes == Charge(batch, rows)
    {
      exhausted := CheckEach(batch);
      if exhausted == [] {
        ChargeEach(batch);
      }
    }

    // Calls

    /** The single statement of `consume`; None when it returns no row. */
    method Upsert(entry: Entry) returns (used: Option<int>)
      requires Idle()
      modifies this`rows
      ensures used == if Get(old(rows), entry.row) + entry.amount <= entry.limit && entry.amount <= entry.limit
                      then Some(Get(old(rows), entry.row) + entry.amount) else None
      ensures rows == if used.Some? then old(rows)[entry.row := used.value] else old(rows)
    {
      if entry.row in rows {
        if rows[entry.row] + entry.amount > entry.limit || entry.amount > entry.limit {
          return None;
        }
        rows := rows[entry.row := rows[entry.row] + entry.amount];
      } else {
        if entry.amount > entry.limit {
          return None;
        }
        rows := rows[entry.row := entry.amount];
      }
      return Some(rows[entry.row]);
    }

    /** `#maybePrune`: marks the time before it sweeps. */
    method MaybePrune(now: Time) returns (sweep: bool)
      modifies this`prunedAt
      ensures sweep == StartsSweep(old(prunedAt), now) && prunedAt == Mark(old(prunedAt), now)
    {
      sweep := now - prunedAt >= PRUNE_INTERVAL_MS;
      if sweep {
        prunedAt := now;
      }
    }

    /** `consume` of a request whose row is known; `sweep` says whether a sweep was started. */
    method Spend(entry: Entry, now: Time) returns (outcome: Outcome, sweep: bool)
      requires Idle() && forall row <- rows :: rows[row] >= 0
      modifies this`rows, this`prunedAt
      ensures entry.limit > 0 ==> (Tables(), outcome) == ApplyConsume(old(Tables()), entry)
      ensures entry.limit <= 0 ==>
                Tables() == old(Tables()) && outcome == Counted(false, 0, entry.limit, entry.resetAt)
    {
      if entry.limit <= 0 {
        return Counted(false, 0, entry.limit, entry.resetAt), false;
      }
      assert Get(rows, entry.row) >= 0;
      var used := Upsert(entry);
      sweep := MaybePrune(now);
      match used {
        case None => outcome := Counted(false, Get(rows, entry.row), entry.limit, entry.resetAt);
        case Some(total) => outcome := Counted(true, total, entry.limit, entry.resetAt);
      }
    }

    /** `consume`: as the sequential store, unless the limit switches the surface off. */
    method Consume(request: CounterRequest, now: Time) returns (outcome: Outcome, sweep: bool)
      requires Idle() && forall row <- rows :: rows[row] >= 0
      modifies this`rows, this`prunedAt
      ensures request.limit > 0 ==> (Tables(), outcome) == Apply(old(Tables()), ConsumeCall(request, now))
      ensures request.limit <= 0 ==>
                Tables() == old(Tables())
                && outcome == Counted(false, 0, request.limit, WindowEnd(request.Span(), now))
    {
      outcome, sweep := Spend(EntryOf(request, now), now);
    }

    /** The transaction of `consumeAll`, for a batch in order and without shared rows. */
    method SpendAll(batch: seq<Entry>, now: Time) returns (outcome: Outcome, sweep: bool)
      requires Idle()
      modifies this
      ensures Idle()
      ensures (Tables(), outcome) == ApplyAll(old(Tables()), batch)
    {
      if !DistinctRows(batch) {
        return DuplicateRows, false;
      }
      AdmittedIffAllFit(batch, rows);
      if exists entry <- batch :: entry.limit <= 0 {
        return Spent(false), false;
      }
      var exhausted := ConsumeBatch(batch);
      if exhausted != [] {
        Rollback();
        return Spent(false), false;
      }
      assert receipts + receiptWrites == receipts;
      Commit();
      sweep := MaybePrune(now);
      outcome := Spent(true);
    }

    /** `consumeAll`: the sequential store's rows and answer for the batch in order. */
    method ConsumeAll(requests: seq<CounterRequest>, now: Time) returns (outcome: Outcome, sweep: bool)
      requires Idle()
      modifies this
      ensures Idle()
      ensures (Tables(), outcome) == ApplyAll(old(Tables()), Sort(before, BatchOf(requests, now)))
    {
      outcome, sweep := SpendAll(Sort(before, BatchOf(requests, now)), now);
    }

    /** The transaction of `consumeAllOnce`, for a batch in order. */
    method SpendOnce(batch: seq<Entry>, receipt: Row, fingerprint: string, now: Time)
      returns (outcome: Outcome, sweep: bool)
      requires Idle()
      modifies this
      ensures Idle()
      ensures (Tables(), outcome)
           == if DistinctRows(batch) then ApplyOnce(old(Tables()), batch, receipt, fingerprint)
              else (old(Tables()), DuplicateRows)
    {
      if !DistinctRows(batch) {
        return DuplicateRows, false;
      }
      if receipt in receipts {
        assert rows + writes == rows && receipts + receiptWrites == receipts;
        Commit();
        return if receipts[receipt] == fingerprint then Replayed else Conflict, false;
      }
      var exhausted := ConsumeBatch(batch);
      if exhausted != [] {
        Rollback();
        return Refused(exhausted), false;
      }
      receiptWrites := receiptWrites[receipt := fingerprint];
      assert receipts + receiptWrites == receipts[receipt := fingerprint];
      Commit();
      sweep := MaybePrune(now);
      outcome := Consumed;
    }

    /** `consumeAllOnce`: likewise, except that shared rows are an error before the receipt is looked up. */
    method ConsumeAllOnce(requests: seq<CounterRequest>, attempt: Attempt, now: Time)
      returns (outcome: Outcome, sweep: bool)
      requires Idle()
      modifies this
      ensures Idle()
      ensures (Tables(), outcome)
           == (var batch := Sort(before, BatchOf(requests, now));
               if DistinctRows(batch) then ApplyOnce(old(Tables()), batch, ReceiptRow(attempt, now), attempt.fingerprint)
               else (old(Tables()), DuplicateRows))
    {
      outcome, sweep := SpendOnce(Sort(before, BatchOf(requests, now)), ReceiptRow(attempt, now),
                                  attempt.fingerprint, now);
    }
  }

  // The order of a batch does not matter

  lemma SortedCharge(before: Order, batch: seq<Entry>, rows: map<Row, int>)
    requires StrictTotal(before) && DistinctRows(batch)
    ensures Charge(Sort(before, batch), rows) == Charge(batch, rows)
  {
    var sorted := Sort(before, batch);
    forall row
      ensures row in Charge(sorted, rows) <==> row in Charge(batch, rows)
      ensures Get(Charge(sorted, rows), row) == Get(Charge(batch, rows), row)
    {
      ChargeAdds(sorted, rows, row);
      ChargeAdds(batch, rows, row);
      SortKeepsUnits(before, batch, row);
      SameMultisetSameMembers(sorted, batch);
    }
    SameRows(Charge(sorted, rows), Charge(batch, rows));
  }

  lemma SortedRefusal(before: Order, batch: seq<Entry>, rows: map<Row, int>)
    ensures ExhaustedBy(Sort(before, batch), rows) == [] <==> ExhaustedBy(batch, rows) == []
    ensures multiset(ExhaustedBy(Sort(before, batch), rows)) == multiset(ExhaustedBy(batch, rows))
  {
    SortKeepsExhausted(before, batch, rows);
    var a, b := ExhaustedBy(Sort(before, batch), rows), ExhaustedBy(batch, rows);
    assert |multiset(a)| == |a| && |multiset(b)| == |b|;
  }

  /** So an uninterrupted `consumeAll` leaves the rows and gives the answer of the sequential store. */
  lemma SortingKeepsAll(before: Order, s: State, batch: seq<Entry>)
    requires StrictTotal(before)
    ensures ApplyAll(s, Sort(before, batch)) == ApplyAll(s, batch)
  {
    SortKeepsDistinctness(before, batch);
    SortedRefusal(before, batch, s.used);
    if DistinctRows(batch) {
      SortedCharge(before, batch, s.used);
    }
  }

  /** And so does `consumeAllOnce` of a batch without shared rows, up to the order of a refusal. */
  lemma SortingKeepsOnce(before: Order, s: State, batch: seq<Entry>, receipt: Row, fingerprint: string)
    requires StrictTotal(before) && DistinctRows(batch)
    ensures ApplyOnce(s, Sort(before, batch), receipt, fingerprint).0 == ApplyOnce(s, batch, receipt, fingerprint).0
    ensures SameAnswer(ApplyOnce(s, Sort(before, batch), receipt, fingerprint).1,
                       ApplyOnce(s, batch, receipt, fingerprint).1)
  {
    SortKeepsDistinctness(before, batch);
    SortedRefusal(before, batch, s.used);
    SortedCharge(before, batch, s.used);
  }
}
