/** What every step of the transaction protocol keeps. */
module PostgresInvariant {
  import opened Text
  import opened CounterRows
  import opened Ledger
  import opened SortedBatch
  import opened Postgres

  // One transaction

  /** The rows of the first `n` entries are locked, and no row of another entry is. */
  ghost predicate HoldsExactly(tx: Tx, n: nat)
    requires n <= |tx.batch|
  {
    && (forall j | 0 <= j < n :: tx.batch[j].row in tx.held)
    && (forall row <- tx.held :: HasRow(tx.batch, n, row))
  }

  /** Every lock is on a row that exists, committed or inserted by the transaction itself. */
  ghost predicate Backed(rows: map<Row, int>, tx: Tx) {
    && (forall row <- tx.held :: row in rows || row in tx.writes)
    && (forall row <- tx.writes :: row in tx.held)
  }

  /** Before the updates, the only writes are inserted rows without any use. */
  ghost predicate OnlyFreshRows(rows: map<Row, int>, tx: Tx) {
    forall row <- tx.writes :: row !in rows && tx.writes[row] == 0
  }

  ghost predicate AllFit(rows: map<Row, int>, tx: Tx) {
    forall e <- tx.batch :: !Over(e, Get(rows, e.row))
  }

  /** The first `n` entries are charged on top of the committed rows, the others not yet. */
  ghost predicate Charged(rows: map<Row, int>, tx: Tx, n: nat)
    requires n <= |tx.batch|
  {
    && (forall j | 0 <= j < n ::
          var e := tx.batch[j];
          e.row in tx.writes && tx.writes[e.row] == Get(rows, e.row) + e.amount)
    && (forall j | n <= j < |tx.batch| ::
          var row := tx.batch[j].row;
          row in tx.writes ==> row !in rows && tx.writes[row] == 0)
  }

  /** Only a call with an attempt takes the advisory lock, and it charges only without a receipt. */
  ghost predicate Unreceipted(receipts: map<Row, string>, tx: Tx) {
    tx.call.ConsumeAllOnce? ==> tx.advisory && tx.call.receipt !in receipts
  }

  predicate Untouched(tx: Tx) {
    tx.held == {} && tx.writes == map[] && tx.exhausted == [] && !tx.recorded
  }

  ghost predicate Collected(rows: map<Row, int>, tx: Tx, n: nat)
    requires n <= |tx.batch|
  {
    && Backed(rows, tx) && OnlyFreshRows(rows, tx) && !tx.recorded
    && tx.exhausted == ExhaustedBy(tx.batch[..n], rows)
  }

  ghost predicate Charging(rows: map<Row, int>, receipts: map<Row, string>, tx: Tx, n: nat)
    requires n <= |tx.batch|
  {
    && HoldsExactly(tx, |tx.batch|) && Backed(rows, tx) && AllFit(rows, tx) && Charged(rows, tx, n)
    && Unreceipted(receipts, tx)
  }

  /** Before the insert of entry `i`: the earlier rows are locked and checked. */
  ghost predicate InsertOk(rows: map<Row, int>, receipts: map<Row, string>, tx: Tx, i: nat) {
    && !tx.call.Consume? && i < |tx.batch| && HoldsExactly(tx, i) && Collected(rows, tx, i)
    && Unreceipted(receipts, tx)
  }

  /** Before its lock: it exists, and only an own insert has locked it already. */
  ghost predicate LockOk(rows: map<Row, int>, receipts: map<Row, string>, tx: Tx, i: nat) {
    && !tx.call.Consume? && i < |tx.batch| && Collected(rows, tx, i) && Unreceipted(receipts, tx)
    && (if tx.batch[i].row in tx.held then HoldsExactly(tx, i + 1) else HoldsExactly(tx, i))
    && (tx.batch[i].row in rows || tx.batch[i].row in tx.writes)
  }

  /** Before the charge of entry `i`: all rows are locked, all entries fit, the earlier ones are charged. */
  ghost predicate UpdateOk(rows: map<Row, int>, receipts: map<Row, string>, tx: Tx, i: nat) {
    !tx.call.Consume? && i < |tx.batch| && !tx.recorded && Charging(rows, receipts, tx, i)
  }

  ghost predicate WriteReceiptOk(rows: map<Row, int>, receipts: map<Row, string>, tx: Tx) {
    tx.call.ConsumeAllOnce? && !tx.recorded && Charging(rows, receipts, tx, |tx.batch|)
  }

  ghost predicate CommitOk(rows: map<Row, int>, receipts: map<Row, string>, tx: Tx, outcome: Outcome)
  {
    && Charging(rows, receipts, tx, |tx.batch|) && tx.recorded == tx.call.ConsumeAllOnce?
    && outcome == CommitOutcome(rows, tx)
  }

  ghost predicate EndOk(tx: Tx, outcome: Outcome) {
    !tx.call.Consume? && !tx.recorded && HoldsOnlyOwnRows(tx) && !outcome.Counted? && !outcome.DuplicateRows?
  }

  /** What a running transaction knows at each statement. */
  ghost predicate PhaseOk(rows: map<Row, int>, receipts: map<Row, string>, tx: Tx)
  {
    match tx.phase
    case Upsert => tx.call.Consume? && Untouched(tx) && !SwitchedOff(tx.call.entry)
    case ReadUsed =>
      && tx.call.Consume? && Untouched(tx)
      && Get(rows, tx.call.entry.row) + tx.call.entry.amount > tx.call.entry.limit
    case Advisory => tx.call.ConsumeAllOnce? && Untouched(tx) && !tx.advisory
    case ReadReceipt => tx.call.ConsumeAllOnce? && Untouched(tx) && tx.advisory
    case Insert(i) => InsertOk(rows, receipts, tx, i)
    case Lock(i) => LockOk(rows, receipts, tx, i)
    case Update(i) => UpdateOk(rows, receipts, tx, i)
    case WriteReceipt => WriteReceiptOk(rows, receipts, tx)
    case Commit(outcome) => CommitOk(rows, receipts, tx, outcome)
    case End(outcome) => EndOk(tx, outcome)
    case Done(_) => true
    case Failed => true
  }

  ghost predicate HoldsOnlyOwnRows(tx: Tx) {
    forall row <- tx.held :: HasRow(tx.batch, |tx.batch|, row)
  }

  function CommitOutcome(rows: map<Row, int>, tx: Tx): Outcome {
    match tx.call
    case Consume(_, e) => Counted(true, Get(rows, e.row) + e.amount, e.limit, e.resetAt)
    case ConsumeAll(_, _) => Spent(true)
    case ConsumeAllOnce(_, _, _, _) => Consumed
  }

  /** The part that never changes while the transaction runs. */
  ghost predicate Shape(c: Config, tx: Tx) {
    && Increasing(c.before, tx.batch) && DistinctRows(tx.batch)
    && (forall e <- tx.batch :: e.amount >= 1 && e.row.day == tx.call.day)
    && (tx.call.Consume? ==> tx.batch == [tx.call.entry])
    && (tx.call.ConsumeAllOnce? ==> tx.call.receipt.day == tx.call.day)
  }

  /** A refused `consume` reports a use that would indeed exceed its limit. */
  predicate HonestDenial(tx: Tx) {
    match tx.phase
    case Done(Counted(allowed, used, limit, _)) =>
      !allowed && limit > 0 && tx.call.Consume? ==> used + tx.call.entry.amount > limit
    case _ => true
  }

  ghost predicate TxOk(c: Config, rows: map<Row, int>, receipts: map<Row, string>, horizon: string, tx: Tx) {
    if Running(tx.phase) then
      && Shape(c, tx) && PhaseOk(rows, receipts, tx) && !Less(tx.call.day, horizon)
      && (tx.advisory ==> tx.call.ConsumeAllOnce?)
    else tx.held == {} && !tx.advisory && !tx.recorded && HonestDenial(tx)
  }

  // All of them together

  /** No row has two locks, and no advisory lock two owners. */
  ghost predicate Exclusive(c: Config, txs: seq<Tx>) {
    forall t, u | 0 <= t < |txs| && 0 <= u < |txs| && t != u :: Apart(c, txs[t], txs[u])
  }

  ghost predicate Apart(c: Config, tx: Tx, other: Tx) {
    && tx.held !! other.held
    && (tx.advisory && other.advisory && tx.call.ConsumeAllOnce? && other.call.ConsumeAllOnce?
        ==> c.hash(tx.call.receipt) != c.hash(other.call.receipt))
  }

  ghost predicate Inv(c: Config, s: Sys) {
    && (forall row <- s.rows :: s.rows[row] >= 0)
    && (forall t | 0 <= t < |s.txs| :: TxOk(c, s.rows, s.receipts, s.horizon, s.txs[t]))
    && Exclusive(c, s.txs)
  }

  // What the actions of others leave a transaction

  /** The tables changed in a way that does not disturb this transaction. */
  ghost predicate Steady(rows: map<Row, int>, rows': map<Row, int>, receipts: map<Row, string>,
                         receipts': map<Row, string>, horizon': string, tx: Tx) {
    && (forall row <- tx.held :: Get(rows', row) == Get(rows, row) && (row in rows' <==> row in rows))
    && (forall row <- rows :: !Less(row.day, horizon') ==> row in rows')
    && (forall row: Row :: !Less(row.day, horizon') ==> Get(rows', row) >= Get(rows, row))
    && (tx.advisory && tx.call.ConsumeAllOnce? && tx.call.receipt !in receipts ==> tx.call.receipt !in receipts')
    && (Running(tx.phase) ==> !Less(tx.call.day, horizon'))
  }

  lemma {:induction false} ExhaustedByAgrees(batch: seq<Entry>, used: map<Row, int>, used': map<Row, int>)
    requires forall e <- batch :: Get(used, e.row) == Get(used', e.row)
    ensures ExhaustedBy(batch, used) == ExhaustedBy(batch, used')
  {
    if batch != [] {
      ExhaustedByAgrees(batch[..|batch| - 1], used, used');
    }
  }

  lemma SteadyKeepsCollected(rows: map<Row, int>, rows': map<Row, int>, tx: Tx, n: nat)
    requires n <= |tx.batch| && Collected(rows, tx, n)
    requires forall j | 0 <= j < n :: tx.batch[j].row in tx.held
    requires forall row <- tx.held :: Get(rows', row) == Get(rows, row) && (row in rows' <==> row in rows)
    ensures Collected(rows', tx, n)
  {
    ExhaustedByAgrees(tx.batch[..n], rows, rows');
  }

  lemma SteadyKeepsCharging(rows: map<Row, int>, rows': map<Row, int>, receipts: map<Row, string>,
                            receipts': map<Row, string>, tx: Tx, n: nat)
    requires n <= |tx.batch| && Charging(rows, receipts, tx, n)
    requires forall row <- tx.held :: Get(rows', row) == Get(rows, row) && (row in rows' <==> row in rows)
    requires Unreceipted(receipts', tx)
    ensures Charging(rows', receipts', tx, n)
  {
    forall e <- tx.batch
      ensures !Over(e, Get(rows', e.row))
    {
      assert e.row in tx.held;
    }
  }

  lemma SteadyKeepsInsert(rows: map<Row, int>, rows': map<Row, int>, receipts: map<Row, string>,
        receipts': map<Row, string>, horizon': string, tx: Tx)
    requires tx.call.Consume? ==> tx.batch == [tx.call.entry]
    requires forall e <- tx.batch :: e.row.day == tx.call.day
    requires PhaseOk(rows, receipts, tx)
    requires Steady(rows, rows', receipts, receipts', horizon', tx)
    requires tx.phase.Insert?
    ensures PhaseOk(rows', receipts', tx)
  {
    SteadyKeepsCollected(rows, rows', tx, tx.phase.i);
  }

  lemma SteadyKeepsLock(rows: map<Row, int>, rows': map<Row, int>, receipts: map<Row, string>,
        receipts': map<Row, string>, horizon': string, tx: Tx)
    requires tx.call.Consume? ==> tx.batch == [tx.call.entry]
    requires forall e <- tx.batch :: e.row.day == tx.call.day
    requires PhaseOk(rows, receipts, tx)
    requires Steady(rows, rows', receipts, receipts', horizon', tx)
    requires tx.phase.Lock?
    ensures PhaseOk(rows', receipts', tx)
  {
    SteadyKeepsCollected(rows, rows', tx, tx.phase.i);
  }

  lemma SteadyKeepsCharges(rows: map<Row, int>, rows': map<Row, int>, receipts: map<Row, string>,
        receipts': map<Row, string>, horizon': string, tx: Tx)
    requires tx.call.Consume? ==> tx.batch == [tx.call.entry]
    requires forall e <- tx.batch :: e.row.day == tx.call.day
    requires PhaseOk(rows, receipts, tx)
    requires Steady(rows, rows', receipts, receipts', horizon', tx)
    requires tx.phase.Update? || tx.phase.WriteReceipt? || tx.phase.Commit?
    ensures PhaseOk(rows', receipts', tx)
  {
    var n := if tx.phase.Update? then tx.phase.i else |tx.batch|;
    if tx.call.Consume? {
      assert tx.batch[0].row in tx.held;
    }
    SteadyKeepsCharging(rows, rows', receipts, receipts', tx, n);
  }

  lemma SteadyKeepsRest(rows: map<Row, int>, rows': map<Row, int>, receipts: map<Row, string>,
        receipts': map<Row, string>, horizon': string, tx: Tx)
    requires tx.call.Consume? ==> tx.batch == [tx.call.entry]
    requires forall e <- tx.batch :: e.row.day == tx.call.day
    requires PhaseOk(rows, receipts, tx)
    requires Steady(rows, rows', receipts, receipts', horizon', tx)
    requires tx.phase.Upsert? || tx.phase.ReadUsed? || tx.phase.Advisory? || tx.phase.ReadReceipt? || tx.phase.End?
    ensures PhaseOk(rows', receipts', tx)
  {
    if tx.phase.ReadUsed? {
      assert tx.batch[0] == tx.call.entry;
      assert !Less(tx.call.entry.row.day, horizon');
    }
  }

  /** The tables changed in a way that does not disturb what this transaction knows. */
  lemma SteadyKeepsPhase(rows: map<Row, int>, rows': map<Row, int>, receipts: map<Row, string>,
        receipts': map<Row, string>, horizon': string, tx: Tx)
    requires tx.call.Consume? ==> tx.batch == [tx.call.entry]
    requires forall e <- tx.batch :: e.row.day == tx.call.day
    requires PhaseOk(rows, receipts, tx)
    requires Steady(rows, rows', receipts, receipts', horizon', tx)
    requires Running(tx.phase)
    ensures PhaseOk(rows', receipts', tx)
  {
    match tx.phase
    case Insert(_) => SteadyKeepsInsert(rows, rows', receipts, receipts', horizon', tx);
    case Lock(_) => SteadyKeepsLock(rows, rows', receipts, receipts', horizon', tx);
    case Update(_) => SteadyKeepsCharges(rows, rows', receipts, receipts', horizon', tx);
    case WriteReceipt => SteadyKeepsCharges(rows, rows', receipts, receipts', horizon', tx);
    case Commit(_) => SteadyKeepsCharges(rows, rows', receipts, receipts', horizon', tx);
    case _ => SteadyKeepsRest(rows, rows', receipts, receipts', horizon', tx);
  }

  lemma SteadyKeepsTx(c: Config, rows: map<Row, int>, rows': map<Row, int>, receipts: map<Row, string>,
                      receipts': map<Row, string>, horizon: string, horizon': string, tx: Tx)
    requires TxOk(c, rows, receipts, horizon, tx)
    requires Steady(rows, rows', receipts, receipts', horizon', tx)
    ensures TxOk(c, rows', receipts', horizon', tx)
  {
    if Running(tx.phase) {
      SteadyKeepsPhase(rows, rows', receipts, receipts', horizon', tx);
    }
  }

  // One statement of the transaction itself

  predicate New(tx: Tx) {
    tx.held == {} && tx.writes == map[] && tx.exhausted == [] && !tx.recorded && !tx.advisory
  }

  lemma FirstPhaseIsOk(c: Config, rows: map<Row, int>, receipts: map<Row, string>, horizon: string, tx: Tx)
    requires New(tx) && tx.phase == FirstPhase(tx.call, tx.batch)
    requires DistinctRows(tx.batch) ==> Shape(c, tx)
    requires tx.call.Consume? ==> DistinctRows(tx.batch)
    requires !Less(tx.call.day, horizon)
    ensures TxOk(c, rows, receipts, horizon, tx)
  {
    if Running(tx.phase) && !tx.call.Consume? {
      EmptyExhausted(tx, rows);
    }
  }

  lemma StartHasShape(c: Config, call: Call)
    requires StrictTotal(c.before) && WellFormed(call)
    ensures call.Consume? ==> DistinctRows(Start(c, call).batch)
    ensures DistinctRows(Start(c, call).batch) ==> Shape(c, Start(c, call))
  {
    var entries, batch := EntriesOf(call), Sort(c.before, EntriesOf(call));
    SameMultisetSameMembers(batch, entries);
    if DistinctRows(batch) {
      SortKeepsDistinctness(c.before, entries);
      SortIncreasing(c.before, entries);
    }
  }

  lemma StartIsOk(c: Config, rows: map<Row, int>, receipts: map<Row, string>, horizon: string, call: Call)
    requires StrictTotal(c.before)
    requires WellFormed(call) && !Less(call.day, horizon)
    ensures TxOk(c, rows, receipts, horizon, Start(c, call))
  {
    StartHasShape(c, call);
    FirstPhaseIsOk(c, rows, receipts, horizon, Start(c, call));
  }

  lemma EmptyExhausted(tx: Tx, rows: map<Row, int>)
    ensures ExhaustedBy(tx.batch[..0], rows) == []
  {
  }

  lemma UpsertStepOk(rows: map<Row, int>, receipts: map<Row, string>, tx: Tx)
    requires tx.call.Consume? && tx.batch == [tx.call.entry] && Untouched(tx) && !SwitchedOff(tx.call.entry)
    requires forall row <- rows :: rows[row] >= 0
    ensures PhaseOk(rows, receipts, UpsertStep(rows, tx, tx.call.entry))
  {
    var e := tx.call.entry;
    var tx' := UpsertStep(rows, tx, e);
    if tx'.phase.Commit? {
      assert tx'.batch[0].row == e.row;
      assert HasRow(tx'.batch, 1, e.row);
      assert forall j | 0 <= j < |tx'.batch| :: tx'.batch[j] == e;
      assert Charging(rows, receipts, tx', 1);
    }
  }

  lemma FirstInsertOk(rows: map<Row, int>, receipts: map<Row, string>, tx: Tx)
    requires !tx.call.Consume? && Untouched(tx) && Unreceipted(receipts, tx)
    ensures AfterLocksOk(rows, receipts, tx.(phase := AfterLocks(tx.call, tx.batch, [], 0)), 0)
  {
    EmptyExhausted(tx, rows);
  }

  /** Once `i` entries are locked and checked. */
  ghost predicate AfterLocksOk(rows: map<Row, int>, receipts: map<Row, string>, tx: Tx, i: nat) {
    match tx.phase
    case Insert(k) => k == i && InsertOk(rows, receipts, tx, i)
    case End(outcome) => EndOk(tx, outcome)
    case Update(k) => k == 0 && UpdateOk(rows, receipts, tx, 0)
    case WriteReceipt => WriteReceiptOk(rows, receipts, tx)
    case Commit(outcome) => !tx.call.Consume? && CommitOk(rows, receipts, tx, outcome)
    case _ => false
  }

  lemma OneMoreRow(batch: seq<Entry>, i: nat, held: set<Row>)
    requires i < |batch| && forall row <- held :: HasRow(batch, i, row)
    ensures forall row <- held + {batch[i].row} :: HasRow(batch, i + 1, row)
  {
    forall row <- held + {batch[i].row}
      ensures HasRow(batch, i + 1, row)
    {
      if row in held {
        assert HasRow(batch, i, row);
      } else {
        assert batch[i].row == row;
      }
    }
  }

  lemma InsertStepOk(rows: map<Row, int>, receipts: map<Row, string>, tx: Tx, i: nat)
    requires InsertOk(rows, receipts, tx, i) && DistinctRows(tx.batch)
    ensures LockOk(rows, receipts, InsertStep(rows, tx, i, tx.batch[i]), i)
  {
    OneMoreRow(tx.batch, i, tx.held);
    assert tx.batch[i].row !in tx.held;
  }

  lemma LockStepCollects(rows: map<Row, int>, tx: Tx, i: nat)
    requires i < |tx.batch| && Collected(rows, tx, i)
    requires tx.batch[i].row in rows || tx.batch[i].row in tx.writes
    ensures Collected(rows, LockStep(rows, tx, i, tx.batch[i]), i + 1)
  {
    assert Visible(rows, tx, tx.batch[i].row) == Get(rows, tx.batch[i].row);
    assert tx.batch[..i + 1][..i] == tx.batch[..i];
  }

  lemma LockStepHolds(rows: map<Row, int>, tx: Tx, i: nat)
    requires i < |tx.batch|
    requires tx.batch[i].row in rows || tx.batch[i].row in tx.writes
    requires if tx.batch[i].row in tx.held then HoldsExactly(tx, i + 1) else HoldsExactly(tx, i)
    ensures HoldsExactly(LockStep(rows, tx, i, tx.batch[i]), i + 1)
  {
    if tx.batch[i].row !in tx.held {
      OneMoreRow(tx.batch, i, tx.held);
    }
    assert {tx.batch[i].row} + tx.held == if tx.batch[i].row in tx.held then tx.held else tx.held + {tx.batch[i].row};
  }

  lemma LockStepOk(rows: map<Row, int>, receipts: map<Row, string>, tx: Tx, i: nat)
    requires LockOk(rows, receipts, tx, i)
    ensures AfterLocksOk(rows, receipts, LockStep(rows, tx, i, tx.batch[i]), i + 1)
  {
    LockStepCollects(rows, tx, i);
    LockStepHolds(rows, tx, i);
    CheckedAll(rows, receipts, LockStep(rows, tx, i, tx.batch[i]), i + 1);
  }

  lemma CheckedAll(rows: map<Row, int>, receipts: map<Row, string>, tx: Tx, i: nat)
    requires !tx.call.Consume? && i <= |tx.batch| && HoldsExactly(tx, i) && Collected(rows, tx, i)
    requires Unreceipted(receipts, tx) && tx.phase == AfterLocks(tx.call, tx.batch, tx.exhausted, i)
    ensures AfterLocksOk(rows, receipts, tx, i)
  {
    if i == |tx.batch| {
      assert tx.batch[..i] == tx.batch;
      AdmittedIffAllFit(tx.batch, rows);
    }
  }

  lemma UpdateStepCharges(rows: map<Row, int>, tx: Tx, i: nat)
    requires i < |tx.batch| && DistinctRows(tx.batch) && Charged(rows, tx, i) && Backed(rows, tx)
    requires tx.batch[i].row in tx.held
    ensures var tx' := UpdateStep(rows, tx, i, tx.batch[i]);
            tx'.held == tx.held && Charged(rows, tx', i + 1) && Backed(rows, tx')
  {
    var row := tx.batch[i].row;
    assert Visible(rows, tx, row) == Get(rows, row);
    assert tx.held + {row} == tx.held;
  }

  /** Once `i` entries are charged. */
  ghost predicate AfterUpdatesOk(rows: map<Row, int>, receipts: map<Row, string>, tx: Tx, i: nat) {
    match tx.phase
    case Update(k) => k == i && UpdateOk(rows, receipts, tx, i)
    case WriteReceipt => WriteReceiptOk(rows, receipts, tx)
    case Commit(outcome) => !tx.call.Consume? && CommitOk(rows, receipts, tx, outcome)
    case _ => false
  }

  lemma UpdateStepOk(rows: map<Row, int>, receipts: map<Row, string>, tx: Tx, i: nat)
    requires UpdateOk(rows, receipts, tx, i) && DistinctRows(tx.batch)
    ensures AfterUpdatesOk(rows, receipts, UpdateStep(rows, tx, i, tx.batch[i]), i + 1)
  {
    var row := tx.batch[i].row;
    UpdateStepCharges(rows, tx, i);
    UpdateStepStatics(rows, tx, i);
    ChargedOn(rows, receipts, UpdateStep(rows, tx, i, tx.batch[i]), i + 1);
  }

  lemma UpdateStepStatics(rows: map<Row, int>, tx: Tx, i: nat)
    requires i < |tx.batch|
    ensures var tx' := UpdateStep(rows, tx, i, tx.batch[i]);
            && tx'.call == tx.call && tx'.batch == tx.batch && tx'.recorded == tx.recorded
            && tx'.advisory == tx.advisory && tx'.phase == AfterUpdates(tx.call, tx.batch, i + 1)
  {
  }

  lemma ChargedOn(rows: map<Row, int>, receipts: map<Row, string>, tx: Tx, i: nat)
    requires !tx.call.Consume? && !tx.recorded && i <= |tx.batch| && Charging(rows, receipts, tx, i)
    requires tx.phase == AfterUpdates(tx.call, tx.batch, i)
    ensures AfterUpdatesOk(rows, receipts, tx, i)
  {
  }

  lemma RecordStepOk(rows: map<Row, int>, receipts: map<Row, string>, tx: Tx)
    requires WriteReceiptOk(rows, receipts, tx)
    ensures var tx' := RecordStep(receipts, tx, tx.call.receipt);
            tx'.phase.Commit? && CommitOk(rows, receipts, tx', tx'.phase.outcome)
  {
  }

  lemma ReceiptStepOk(rows: map<Row, int>, receipts: map<Row, string>, tx: Tx)
    requires tx.call.ConsumeAllOnce? && Untouched(tx) && tx.advisory
    ensures AfterLocksOk(rows, receipts, ReceiptStep(receipts, tx, tx.call.receipt, tx.call.fingerprint), 0)
  {
    if tx.call.receipt !in receipts {
      FirstInsertOk(rows, receipts, tx);
    }
  }

  lemma OpeningPhasesOk(rows: map<Row, int>, receipts: map<Row, string>, tx: Tx)
    requires tx.call.Consume? ==> tx.batch == [tx.call.entry]
    requires DistinctRows(tx.batch) && PhaseOk(rows, receipts, tx)
    requires forall row <- rows :: rows[row] >= 0
    requires tx.phase.Upsert? || tx.phase.ReadUsed? || tx.phase.Advisory?
    ensures PhaseOk(rows, receipts, Step(rows, receipts, tx))
  {
    if tx.phase.Upsert? {
      UpsertStepOk(rows, receipts, tx);
    }
  }

  lemma ReadReceiptPhaseOk(rows: map<Row, int>, receipts: map<Row, string>, tx: Tx)
    requires tx.call.Consume? ==> tx.batch == [tx.call.entry]
    requires DistinctRows(tx.batch) && PhaseOk(rows, receipts, tx)
    requires tx.phase.ReadReceipt?
    ensures PhaseOk(rows, receipts, Step(rows, receipts, tx))
  {
    ReceiptStepOk(rows, receipts, tx);
  }

  lemma InsertPhaseOk(rows: map<Row, int>, receipts: map<Row, string>, tx: Tx)
    requires tx.call.Consume? ==> tx.batch == [tx.call.entry]
    requires DistinctRows(tx.batch) && PhaseOk(rows, receipts, tx)
    requires tx.phase.Insert?
    ensures PhaseOk(rows, receipts, Step(rows, receipts, tx))
  {
    InsertStepOk(rows, receipts, tx, tx.phase.i);
  }

  lemma LockPhaseOk(rows: map<Row, int>, receipts: map<Row, string>, tx: Tx)
    requires tx.call.Consume? ==> tx.batch == [tx.call.entry]
    requires DistinctRows(tx.batch) && PhaseOk(rows, receipts, tx)
    requires tx.phase.Lock?
    ensures PhaseOk(rows, receipts, Step(rows, receipts, tx))
  {
    LockStepOk(rows, receipts, tx, tx.phase.i);
  }

  lemma UpdatePhaseOk(rows: map<Row, int>, receipts: map<Row, string>, tx: Tx)
    requires tx.call.Consume? ==> tx.batch == [tx.call.entry]
    requires DistinctRows(tx.batch) && PhaseOk(rows, receipts, tx)
    requires tx.phase.Update?
    ensures PhaseOk(rows, receipts, Step(rows, receipts, tx))
  {
    UpdateStepOk(rows, receipts, tx, tx.phase.i);
  }

  lemma ClosingPhasesOk(rows: map<Row, int>, receipts: map<Row, string>, tx: Tx)
    requires tx.call.Consume? ==> tx.batch == [tx.call.entry]
    requires DistinctRows(tx.batch) && PhaseOk(rows, receipts, tx)
    requires tx.phase.WriteReceipt? || tx.phase.Commit? || tx.phase.End?
    ensures PhaseOk(rows, receipts, Step(rows, receipts, tx))
  {
    if tx.phase.WriteReceipt? {
      RecordStepOk(rows, receipts, tx);
    }
  }

  /** Every statement leads to a statement whose condition holds. */
  lemma StepPhaseOk(rows: map<Row, int>, receipts: map<Row, string>, tx: Tx)
    requires tx.call.Consume? ==> tx.batch == [tx.call.entry]
    requires DistinctRows(tx.batch) && PhaseOk(rows, receipts, tx) && Running(tx.phase)
    requires forall row <- rows :: rows[row] >= 0
    ensures PhaseOk(rows, receipts, Step(rows, receipts, tx))
  {
    match tx.phase
    case Upsert => OpeningPhasesOk(rows, receipts, tx);
    case ReadUsed => OpeningPhasesOk(rows, receipts, tx);
    case Advisory => OpeningPhasesOk(rows, receipts, tx);
    case ReadReceipt => ReadReceiptPhaseOk(rows, receipts, tx);
    case Insert(_) => InsertPhaseOk(rows, receipts, tx);
    case Lock(_) => LockPhaseOk(rows, receipts, tx);
    case Update(_) => UpdatePhaseOk(rows, receipts, tx);
    case _ => ClosingPhasesOk(rows, receipts, tx);
  }

  lemma StepKeepsTx(c: Config, rows: map<Row, int>, receipts: map<Row, string>, horizon: string, tx: Tx)
    requires TxOk(c, rows, receipts, horizon, tx) && Running(tx.phase)
    requires forall row <- rows :: rows[row] >= 0
    ensures TxOk(c, rows, receipts, horizon, Step(rows, receipts, tx))
  {
    StepPhaseOk(rows, receipts, tx);
    StepKeepsStatics(rows, receipts, tx);
    StepEndsCleanly(rows, receipts, tx);
  }

  lemma StepKeepsStatics(rows: map<Row, int>, receipts: map<Row, string>, tx: Tx)
    requires Running(tx.phase)
    ensures var tx' := Step(rows, receipts, tx);
            tx'.call == tx.call && tx'.batch == tx.batch
    ensures Step(rows, receipts, tx).advisory ==> tx.advisory || tx.phase.Advisory?
  {
  }

  predicate Closing(phase: Phase) {
    phase.ReadUsed? || phase.WriteReceipt? || phase.Commit? || phase.End?
  }

  lemma OnlyClosingStepsEnd(rows: map<Row, int>, receipts: map<Row, string>, tx: Tx)
    requires Running(tx.phase) && !Closing(tx.phase)
    ensures Running(Step(rows, receipts, tx).phase)
  {
    match tx.phase
    case Upsert =>
    case Advisory =>
    case ReadReceipt =>
    case Insert(i) =>
    case Lock(i) => LockRunsOn(rows, tx, i);
    case Update(i) => UpdateRunsOn(rows, tx, i);
  }

  lemma LockRunsOn(rows: map<Row, int>, tx: Tx, i: nat)
    ensures i < |tx.batch| ==> Running(LockStep(rows, tx, i, tx.batch[i]).phase)
  {
  }

  lemma UpdateRunsOn(rows: map<Row, int>, tx: Tx, i: nat)
    ensures i < |tx.batch| ==> Running(UpdateStep(rows, tx, i, tx.batch[i]).phase)
  {
  }

  lemma StepEndsCleanly(rows: map<Row, int>, receipts: map<Row, string>, tx: Tx)
    requires tx.call.Consume? ==> tx.batch == [tx.call.entry]
    requires Running(tx.phase) && PhaseOk(rows, receipts, tx)
    ensures var tx' := Step(rows, receipts, tx);
            !Running(tx'.phase) ==> tx'.held == {} && !tx'.advisory && !tx'.recorded && HonestDenial(tx')
  {
    if Closing(tx.phase) {
      ClosingStepsEndCleanly(rows, receipts, tx);
    } else {
      OnlyClosingStepsEnd(rows, receipts, tx);
    }
  }

  lemma ClosingStepsEndCleanly(rows: map<Row, int>, receipts: map<Row, string>, tx: Tx)
    requires tx.call.Consume? ==> tx.batch == [tx.call.entry]
    requires Closing(tx.phase) && PhaseOk(rows, receipts, tx)
    ensures var tx' := Step(rows, receipts, tx);
            !Running(tx'.phase) ==> tx'.held == {} && !tx'.advisory && !tx'.recorded && HonestDenial(tx')
  {
    match tx.phase
    case ReadUsed =>
    case WriteReceipt =>
    case Commit(outcome) =>
      assert outcome.Counted? ==> outcome.allowed;
    case End(outcome) =>
  }

  // The system

  /** A statement takes at most the one lock it needs. */
  lemma StepTakesOnlyItsLock(rows: map<Row, int>, receipts: map<Row, string>, tx: Tx)
    requires Running(tx.phase)
    ensures var need := Needs(rows, tx);
            Step(rows, receipts, tx).held <= tx.held + if need.Some? then {need.value} else {}
    ensures Step(rows, receipts, tx).advisory ==> tx.advisory || tx.phase.Advisory?
  {
  }

  lemma CommitIsSteadyForOthers(c: Config, s: Sys, t: nat, u: nat)
    requires Inv(c, s) && t < |s.txs| && u < |s.txs| && t != u && s.txs[t].phase.Commit?
    ensures Steady(s.rows, RowsAfter(s.rows, s.txs[t]), s.receipts, ReceiptsAfter(s.receipts, s.txs[t]),
                   s.horizon, s.txs[u])
  {
    var tx, other := s.txs[t], s.txs[u];
    assert TxOk(c, s.rows, s.receipts, s.horizon, tx) && TxOk(c, s.rows, s.receipts, s.horizon, other);
    assert Apart(c, tx, other);
    CommitGrowsRows(s.rows, tx, s.receipts);
  }

  /** A commit only adds to rows, and only to rows it has locked. */
  lemma CommitGrowsRows(rows: map<Row, int>, tx: Tx, receipts: map<Row, string>)
    requires Charging(rows, receipts, tx, |tx.batch|)
    requires forall e <- tx.batch :: e.amount >= 1
    ensures forall row: Row :: Get(rows + tx.writes, row) >= Get(rows, row)
    ensures forall row <- tx.writes :: row in tx.held
    ensures forall row <- tx.writes :: tx.writes[row] >= Get(rows, row) + 1
  {
    forall row <- tx.writes
      ensures row in tx.held && tx.writes[row] >= Get(rows, row) + 1
    {
      assert HasRow(tx.batch, |tx.batch|, row);
    }
  }

  lemma StepKeepsApart(c: Config, s: Sys, t: nat, u: nat)
    requires t < |s.txs| && u < |s.txs| && t != u && CanStep(c, s, t)
    requires Apart(c, s.txs[t], s.txs[u])
    requires s.txs[t].advisory ==> s.txs[t].call.ConsumeAllOnce?
    ensures Apart(c, Step(s.rows, s.receipts, s.txs[t]), s.txs[u])
  {
    StepTakesOnlyItsLock(s.rows, s.receipts, s.txs[t]);
    StepKeepsStatics(s.rows, s.receipts, s.txs[t]);
  }

  lemma ApartIsSymmetric(c: Config, tx: Tx, other: Tx)
    requires Apart(c, tx, other)
    ensures Apart(c, other, tx)
  {
  }

  lemma ReplaceKeepsExclusive(c: Config, txs: seq<Tx>, t: nat, tx: Tx)
    requires t < |txs| && Exclusive(c, txs)
    requires forall u | 0 <= u < |txs| && u != t :: Apart(c, tx, txs[u])
    ensures Exclusive(c, txs[t := tx])
  {
    var txs' := txs[t := tx];
    forall v, u | 0 <= v < |txs'| && 0 <= u < |txs'| && v != u
      ensures Apart(c, txs'[v], txs'[u])
    {
      if v != t && u != t {
        assert Apart(c, txs[v], txs[u]);
      } else if u == t {
        ApartIsSymmetric(c, tx, txs[v]);
      }
    }
  }

  lemma ActKeepsOthers(c: Config, s: Sys, t: nat, u: nat)
    requires Inv(c, s) && t < |s.txs| && u < |s.txs| && t != u
    ensures TxOk(c, RowsAfter(s.rows, s.txs[t]), ReceiptsAfter(s.receipts, s.txs[t]), s.horizon, s.txs[u])
  {
    assert TxOk(c, s.rows, s.receipts, s.horizon, s.txs[u]);
    if s.txs[t].phase.Commit? {
      CommitIsSteadyForOthers(c, s, t, u);
      SteadyKeepsTx(c, s.rows, RowsAfter(s.rows, s.txs[t]), s.receipts, ReceiptsAfter(s.receipts, s.txs[t]),
                    s.horizon, s.horizon, s.txs[u]);
    }
  }

  lemma ActKeepsOwn(c: Config, s: Sys, t: nat)
    requires Inv(c, s) && t < |s.txs| && Running(s.txs[t].phase)
    ensures TxOk(c, RowsAfter(s.rows, s.txs[t]), ReceiptsAfter(s.receipts, s.txs[t]), s.horizon,
                 Step(s.rows, s.receipts, s.txs[t]))
  {
    assert TxOk(c, s.rows, s.receipts, s.horizon, s.txs[t]);
    StepKeepsTx(c, s.rows, s.receipts, s.horizon, s.txs[t]);
  }

  lemma ActKeepsInv(c: Config, s: Sys, t: nat)
    requires Inv(c, s) && Enabled(c, s, Act(t))
    ensures Inv(c, After(c, s, Act(t)))
  {
    var tx, s' := s.txs[t], After(c, s, Act(t));
    assert TxOk(c, s.rows, s.receipts, s.horizon, tx);
    forall u | 0 <= u < |s'.txs|
      ensures TxOk(c, s'.rows, s'.receipts, s'.horizon, s'.txs[u])
    {
      if u == t {
        ActKeepsOwn(c, s, t);
      } else {
        ActKeepsOthers(c, s, t, u);
      }
    }
    forall u | 0 <= u < |s.txs| && u != t
      ensures Apart(c, s'.txs[t], s.txs[u])
    {
      assert Apart(c, tx, s.txs[u]);
      StepKeepsApart(c, s, t, u);
    }
    ReplaceKeepsExclusive(c, s.txs, t, s'.txs[t]);
    if tx.phase.Commit? {
      CommitGrowsRows(s.rows, tx, s.receipts);
    }
  }

  lemma BeginKeepsInv(c: Config, s: Sys, call: Call)
    requires StrictTotal(c.before) && Inv(c, s) && Enabled(c, s, Begin(call))
    ensures Inv(c, After(c, s, Begin(call)))
  {
    StartIsOk(c, s.rows, s.receipts, s.horizon, call);
    var tx, s' := Start(c, call), After(c, s, Begin(call));
    forall t, u | 0 <= t < |s'.txs| && 0 <= u < |s'.txs| && t != u
      ensures Apart(c, s'.txs[t], s'.txs[u])
    {
      if t < |s.txs| && u < |s.txs| {
        assert Apart(c, s.txs[t], s.txs[u]);
      }
    }
  }

  lemma AbortKeepsInv(c: Config, s: Sys, t: nat)
    requires Inv(c, s) && Enabled(c, s, Abort(t))
    ensures Inv(c, After(c, s, Abort(t)))
  {
    forall u | 0 <= u < |s.txs| && u != t
      ensures Apart(c, Finish(s.txs[t], Failed), s.txs[u])
    {
    }
    ReplaceKeepsExclusive(c, s.txs, t, Finish(s.txs[t], Failed));
  }

  /** A row of a day before the cutoff is of a day before the new horizon. */
  lemma SweptIsPast(day: DayText, horizon: string, cutoff: DayText)
    requires Less(day, cutoff)
    ensures Less(day, Later(horizon, cutoff))
  {
    if !Less(horizon, cutoff) {
      LessTotal(horizon, cutoff);
      if horizon != cutoff {
        LessTransitive(day, cutoff, horizon);
      }
    }
  }

  lemma SweepIsSteady(c: Config, s: Sys, cutoff: DayText, rows: set<Row>, receipts: set<Row>, u: nat)
    requires Inv(c, s) && Enabled(c, s, Sweep(cutoff, rows, receipts)) && u < |s.txs|
    ensures Steady(s.rows, s.rows - rows, s.receipts, s.receipts - receipts, Later(s.horizon, cutoff), s.txs[u])
  {
    assert TxOk(c, s.rows, s.receipts, s.horizon, s.txs[u]);
    forall row <- rows
      ensures Less(row.day, Later(s.horizon, cutoff))
    {
      SweptIsPast(row.day, s.horizon, cutoff);
    }
  }

  lemma SweepKeepsInv(c: Config, s: Sys, cutoff: DayText, rows: set<Row>, receipts: set<Row>)
    requires Inv(c, s) && Enabled(c, s, Sweep(cutoff, rows, receipts))
    ensures Inv(c, After(c, s, Sweep(cutoff, rows, receipts)))
  {
    forall u | 0 <= u < |s.txs|
      ensures TxOk(c, s.rows - rows, s.receipts - receipts, Later(s.horizon, cutoff), s.txs[u])
    {
      SweepIsSteady(c, s, cutoff, rows, receipts, u);
      SteadyKeepsTx(c, s.rows, s.rows - rows, s.receipts, s.receipts - receipts,
                    s.horizon, Later(s.horizon, cutoff), s.txs[u]);
    }
  }

  /** Every action keeps the invariant. */
  lemma ActionKeepsInv(c: Config, s: Sys, a: Action)
    requires StrictTotal(c.before) && Inv(c, s) && Enabled(c, s, a)
    ensures Inv(c, After(c, s, a))
  {
    match a
    case Begin(call) => BeginKeepsInv(c, s, call);
    case Act(t) => ActKeepsInv(c, s, t);
    case Abort(t) => AbortKeepsInv(c, s, t);
    case Sweep(cutoff, rows, receipts) => SweepKeepsInv(c, s, cutoff, rows, receipts);
  }

  /** So it holds after every run. */
  lemma {:induction false} RunKeepsInv(c: Config, s: Sys, actions: seq<Action>)
    requires StrictTotal(c.before) && Inv(c, s) && Run(c, s, actions)
    ensures Inv(c, EndOf(c, s, actions))
    decreases |actions|
  {
    if actions != [] {
      ActionKeepsInv(c, s, actions[0]);
      RunKeepsInv(c, After(c, s, actions[0]), actions[1..]);
    }
  }

  lemma InitIsOk(c: Config)
    ensures Inv(c, INIT)
  {
  }
}
