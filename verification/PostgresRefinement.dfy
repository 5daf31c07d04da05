/**
 * Every run of the transaction protocol is explained by the calls made one at a time, in the order
 * in which they take effect: an admitted call when it commits, a refused batch when its last row is
 * locked, a refused single call or a replay when it reads.
 */
module PostgresRefinement {
  import opened Text
  import opened CounterRows
  import opened Ledger
  import opened LedgerHistory
  import opened SortedBatch
  import opened Postgres
  import opened PostgresInvariant

  /** A sequential state and the committed tables hold the same at a row. */
  predicate AgreeAt(l: State, rows: map<Row, int>, receipts: map<Row, string>, row: Row) {
    && Get(l.used, row) == Get(rows, row)
    && (row in l.receipts <==> row in receipts)
    && (row in receipts && row in l.receipts ==> l.receipts[row] == receipts[row])
  }

  /** They hold the same on every day that no sweep has touched. */
  ghost predicate Agree(l: State, rows: map<Row, int>, receipts: map<Row, string>, horizon: string) {
    forall row: Row | !Less(row.day, horizon) :: AgreeAt(l, rows, receipts, row)
  }

  /** A transaction works on the entries of its own call. */
  ghost predicate Planned(c: Config, tx: Tx) {
    tx.batch == Sort(c.before, EntriesOf(tx.call))
  }

  /** What the call, made alone in state `l`, answers and leaves is what the protocol answers and leaves. */
  ghost predicate Explained(l: State, call: Call, outcome: Outcome, rows: map<Row, int>,
                            receipts: map<Row, string>, horizon: string) {
    && SameAnswer(Apply(l, call).1, outcome)
    && Agree(Apply(l, call).0, rows, receipts, horizon)
  }

  // Where calls take effect

  lemma PlannedFacts(c: Config, tx: Tx)
    requires StrictTotal(c.before) && Planned(c, tx) && DistinctRows(tx.batch)
    ensures DistinctRows(EntriesOf(tx.call))
  {
    SortKeepsDistinctness(c.before, EntriesOf(tx.call));
  }

  /** A lone call that its ceiling refuses. */
  lemma DenialExplained(l: State, rows: map<Row, int>, receipts: map<Row, string>, horizon: string, call: Call, used: int)
    requires call.Consume?
    requires Agree(l, rows, receipts, horizon) && !Less(call.entry.row.day, horizon)
    requires Get(rows, call.entry.row) + call.entry.amount > call.entry.limit
    ensures Explained(l, call, Denial(call.entry, used), rows, receipts, horizon)
  {
    assert AgreeAt(l, rows, receipts, call.entry.row);
  }

  /** A lone call that is admitted. */
  lemma AdmissionExplained(l: State, rows: map<Row, int>, receipts: map<Row, string>, horizon: string, call: Call)
    requires call.Consume?
    requires Agree(l, rows, receipts, horizon) && !Less(call.entry.row.day, horizon)
    requires !Over(call.entry, Get(rows, call.entry.row))
    ensures var e := call.entry;
            var total := Get(rows, e.row) + e.amount;
            Explained(l, call, Counted(true, total, e.limit, e.resetAt), rows[e.row := total], receipts, horizon)
  {
    var e := call.entry;
    assert AgreeAt(l, rows, receipts, e.row);
    var total := Get(rows, e.row) + e.amount;
    forall row: Row | !Less(row.day, horizon)
      ensures AgreeAt(l.(used := l.used[e.row := total]), rows[e.row := total], receipts, row)
    {
      assert AgreeAt(l, rows, receipts, row);
    }
  }

  lemma BatchAgrees(l: State, rows: map<Row, int>, receipts: map<Row, string>, horizon: string,
                    before: Order, entries: seq<Entry>)
    requires Agree(l, rows, receipts, horizon)
    requires forall e <- Sort(before, entries) :: !Less(e.row.day, horizon)
    ensures multiset(ExhaustedBy(Sort(before, entries), rows)) == multiset(ExhaustedBy(entries, l.used))
  {
    forall e <- Sort(before, entries)
      ensures Get(rows, e.row) == Get(l.used, e.row)
    {
      assert AgreeAt(l, rows, receipts, e.row);
    }
    ExhaustedByAgrees(Sort(before, entries), rows, l.used);
    SortKeepsExhausted(before, entries, l.used);
  }

  lemma SameMultisetSameEmptiness<T>(a: seq<T>, b: seq<T>)
    requires multiset(a) == multiset(b)
    ensures a == [] <==> b == []
  {
    assert |multiset(a)| == |a| && |multiset(b)| == |b|;
  }

  /** A batch that some ceiling refuses. */
  lemma RefusalExplained(c: Config, l: State, rows: map<Row, int>, receipts: map<Row, string>, horizon: string, tx: Tx)
    requires StrictTotal(c.before) && Planned(c, tx) && DistinctRows(tx.batch) && !tx.call.Consume?
    requires Agree(l, rows, receipts, horizon)
    requires !Less(tx.call.day, horizon) && forall e <- tx.batch :: e.row.day == tx.call.day
    requires tx.call.ConsumeAllOnce? ==> tx.call.receipt.day == tx.call.day && tx.call.receipt !in receipts
    requires ExhaustedBy(tx.batch, rows) != []
    ensures Explained(l, tx.call, Refusal(tx.call, ExhaustedBy(tx.batch, rows)), rows, receipts, horizon)
  {
    var entries := EntriesOf(tx.call);
    PlannedFacts(c, tx);
    BatchAgrees(l, rows, receipts, horizon, c.before, entries);
    SameMultisetSameEmptiness(ExhaustedBy(tx.batch, rows), ExhaustedBy(entries, l.used));
    if tx.call.ConsumeAllOnce? {
      assert AgreeAt(l, rows, receipts, tx.call.receipt);
    }
  }

  lemma CommitAdds(rows: map<Row, int>, receipts: map<Row, string>, tx: Tx, row: Row)
    requires Charging(rows, receipts, tx, |tx.batch|) && DistinctRows(tx.batch)
    ensures Get(rows + tx.writes, row) == Get(rows, row) + UnitsFor(tx.batch, row)
  {
    if j :| 0 <= j < |tx.batch| && tx.batch[j].row == row {
      UnitsForEntry(tx.batch, j);
    } else {
      UnitsForAbsent(tx.batch, row);
      assert row !in tx.held;
    }
  }

  /** Charging the entries in their own order or in the sorted order gives the same rows. */
  lemma CommitUsedAgrees(before: Order, l: State, rows: map<Row, int>, receipts: map<Row, string>, horizon: string,
                         entries: seq<Entry>, tx: Tx, row: Row)
    requires StrictTotal(before) && tx.batch == Sort(before, entries) && DistinctRows(entries)
    requires AgreeAt(l, rows, receipts, row)
    requires Charging(rows, receipts, tx, |tx.batch|)
    ensures Get(Charge(entries, l.used), row) == Get(rows + tx.writes, row)
  {
    SortKeepsDistinctness(before, entries);
    ChargeAdds(entries, l.used, row);
    SortKeepsUnits(before, entries, row);
    CommitAdds(rows, receipts, tx, row);
  }

  lemma BatchFits(before: Order, l: State, rows: map<Row, int>, receipts: map<Row, string>, horizon: string,
                  entries: seq<Entry>, tx: Tx)
    requires tx.batch == Sort(before, entries) && AllFit(rows, tx)
    requires Agree(l, rows, receipts, horizon) && forall e <- tx.batch :: !Less(e.row.day, horizon)
    ensures ExhaustedBy(entries, l.used) == []
  {
    BatchAgrees(l, rows, receipts, horizon, before, entries);
    AdmittedIffAllFit(tx.batch, rows);
    SameMultisetSameEmptiness(ExhaustedBy(tx.batch, rows), ExhaustedBy(entries, l.used));
  }

  /** A batch in which every entry fits, once it is committed. */
  lemma BatchCommitExplained(c: Config, l: State, rows: map<Row, int>, receipts: map<Row, string>, horizon: string, tx: Tx)
    requires StrictTotal(c.before) && Planned(c, tx) && DistinctRows(tx.batch) && !tx.call.Consume?
    requires Agree(l, rows, receipts, horizon)
    requires !Less(tx.call.day, horizon) && forall e <- tx.batch :: e.row.day == tx.call.day
    requires tx.call.ConsumeAllOnce? ==> tx.call.receipt.day == tx.call.day
    requires Charging(rows, receipts, tx, |tx.batch|)
    ensures Explained(l, tx.call, CommitOutcome(rows, tx), rows + tx.writes, Recorded(receipts, tx), horizon)
  {
    var entries := EntriesOf(tx.call);
    PlannedFacts(c, tx);
    BatchFits(c.before, l, rows, receipts, horizon, entries, tx);
    if tx.call.ConsumeAllOnce? {
      assert AgreeAt(l, rows, receipts, tx.call.receipt);
    }
    var l' := State(Charge(entries, l.used), Recorded(l.receipts, tx));
    assert Apply(l, tx.call) == (l', CommitOutcome(rows, tx));
    forall row: Row | !Less(row.day, horizon)
      ensures AgreeAt(l', rows + tx.writes, Recorded(receipts, tx), row)
    {
      assert AgreeAt(l, rows, receipts, row);
      CommitUsedAgrees(c.before, l, rows, receipts, horizon, entries, tx, row);
    }
  }

  /** The receipts after a transaction with an attempt has committed. */
  function Recorded(receipts: map<Row, string>, tx: Tx): map<Row, string> {
    if tx.call.ConsumeAllOnce?
    then receipts[tx.call.receipt := tx.call.fingerprint]
    else receipts
  }

  /** A retry that finds its receipt. */
  lemma ReplayExplained(c: Config, l: State, rows: map<Row, int>, receipts: map<Row, string>, horizon: string, tx: Tx)
    requires Planned(c, tx) && tx.call.ConsumeAllOnce? && tx.call.receipt in receipts
    requires Agree(l, rows, receipts, horizon) && !Less(tx.call.receipt.day, horizon)
    ensures Explained(l, tx.call,
                      if receipts[tx.call.receipt] == tx.call.fingerprint then Replayed else Conflict,
                      rows, receipts, horizon)
  {
    assert AgreeAt(l, rows, receipts, tx.call.receipt);
  }

  // One statement

  /** The statement either fixes the answer, and then it takes effect as the call alone would, or leaves all as it is. */
  ghost predicate StepExplained(l: State, rows: map<Row, int>, receipts: map<Row, string>, horizon: string, tx: Tx) {
    var tx' := Step(rows, receipts, tx);
    var rows', receipts' := RowsAfter(rows, tx), ReceiptsAfter(receipts, tx);
    if Decision(tx).None? && Decision(tx').Some?
    then Explained(l, tx.call, Decision(tx').value, rows', receipts', horizon)
    else Agree(l, rows', receipts', horizon)
  }

  ghost predicate Ready(c: Config, l: State, rows: map<Row, int>, receipts: map<Row, string>, horizon: string, tx: Tx) {
    && StrictTotal(c.before) && Planned(c, tx) && Running(tx.phase) && TxOk(c, rows, receipts, horizon, tx)
    && Agree(l, rows, receipts, horizon)
  }

  lemma UpsertExplained(c: Config, l: State, rows: map<Row, int>, receipts: map<Row, string>, horizon: string, tx: Tx)
    requires Ready(c, l, rows, receipts, horizon, tx)
    requires forall row <- rows :: rows[row] >= 0
    requires tx.phase.Upsert?
    ensures StepExplained(l, rows, receipts, horizon, tx)
  {
    var e := tx.call.entry;
    assert tx.batch[0] == e;
    if Get(rows, e.row) + e.amount > e.limit {
      DenialExplained(l, rows, receipts, horizon, tx.call, 0);
    }
  }

  lemma NothingExhaustedUndecided(call: Call, batch: seq<Entry>)
    ensures var phase := AfterLocks(call, batch, [], 0);
            !phase.End? && !phase.Done? && !phase.ReadUsed?
  {
  }

  lemma FixesAnswer(l: State, rows: map<Row, int>, receipts: map<Row, string>, horizon: string, tx: Tx,
                    outcome: Outcome, rows': map<Row, int>, receipts': map<Row, string>)
    requires Decision(tx).None? && Decision(Step(rows, receipts, tx)) == Some(outcome)
    requires rows' == RowsAfter(rows, tx) && receipts' == ReceiptsAfter(receipts, tx)
    requires Explained(l, tx.call, outcome, rows', receipts', horizon)
    ensures StepExplained(l, rows, receipts, horizon, tx)
  {
  }

  lemma LeavesAll(l: State, rows: map<Row, int>, receipts: map<Row, string>, horizon: string, tx: Tx)
    requires Decision(tx).Some? || Decision(Step(rows, receipts, tx)).None?
    requires !tx.phase.Commit? && Agree(l, rows, receipts, horizon)
    ensures StepExplained(l, rows, receipts, horizon, tx)
  {
  }

  /** Reading the receipt fixes the answer when there is one. */
  lemma ReceiptDecides(rows: map<Row, int>, receipts: map<Row, string>, tx: Tx)
    requires tx.call.ConsumeAllOnce? && tx.phase.ReadReceipt?
    ensures Decision(Step(rows, receipts, tx))
            == if tx.call.receipt !in receipts then None
               else if receipts[tx.call.receipt] == tx.call.fingerprint then Some(Replayed) else Some(Conflict)
  {
    NothingExhaustedUndecided(tx.call, tx.batch);
  }

  lemma ReadReceiptExplained(c: Config, l: State, rows: map<Row, int>, receipts: map<Row, string>, horizon: string, tx: Tx)
    requires Planned(c, tx) && tx.call.ConsumeAllOnce? && tx.phase.ReadReceipt?
    requires Agree(l, rows, receipts, horizon) && !Less(tx.call.receipt.day, horizon)
    ensures StepExplained(l, rows, receipts, horizon, tx)
  {
    ReceiptDecides(rows, receipts, tx);
    if tx.call.receipt in receipts {
      ReplayExplained(c, l, rows, receipts, horizon, tx);
      var answer := Decision(Step(rows, receipts, tx)).value;
      FixesAnswer(l, rows, receipts, horizon, tx, answer, rows, receipts);
    } else {
      LeavesAll(l, rows, receipts, horizon, tx);
    }
  }

  /** The last lock fixes a refusal, and nothing else. */
  lemma LastLockDecides(rows: map<Row, int>, receipts: map<Row, string>, tx: Tx, i: nat)
    requires tx.phase == Lock(i) && i < |tx.batch| && Collected(rows, tx, i)
    requires tx.batch[i].row in rows || tx.batch[i].row in tx.writes
    ensures Decision(Step(rows, receipts, tx))
            == if i + 1 == |tx.batch| && ExhaustedBy(tx.batch, rows) != []
               then Some(Refusal(tx.call, ExhaustedBy(tx.batch, rows))) else None
  {
    LockStepCollects(rows, tx, i);
    if i + 1 == |tx.batch| {
      assert tx.batch[..i + 1] == tx.batch;
    }
  }

  lemma LockExplained(c: Config, l: State, rows: map<Row, int>, receipts: map<Row, string>, horizon: string, tx: Tx)
    requires StrictTotal(c.before) && Planned(c, tx) && DistinctRows(tx.batch)
    requires Agree(l, rows, receipts, horizon)
    requires !Less(tx.call.day, horizon) && forall e <- tx.batch :: e.row.day == tx.call.day
    requires tx.call.ConsumeAllOnce? ==> tx.call.receipt.day == tx.call.day
    requires tx.phase.Lock? && LockOk(rows, receipts, tx, tx.phase.i)
    ensures StepExplained(l, rows, receipts, horizon, tx)
  {
    LastLockDecides(rows, receipts, tx, tx.phase.i);
    if Decision(Step(rows, receipts, tx)).None? {
      LeavesAll(l, rows, receipts, horizon, tx);
    } else {
      RefusalExplained(c, l, rows, receipts, horizon, tx);
      var answer := Refusal(tx.call, ExhaustedBy(tx.batch, rows));
      FixesAnswer(l, rows, receipts, horizon, tx, answer, rows, receipts);
    }
  }

  lemma LoneCommit(rows: map<Row, int>, receipts: map<Row, string>, tx: Tx)
    requires Charging(rows, receipts, tx, |tx.batch|) && |tx.batch| == 1
    ensures rows + tx.writes == rows[tx.batch[0].row := Get(rows, tx.batch[0].row) + tx.batch[0].amount]
  {
    forall row <- tx.writes
      ensures row == tx.batch[0].row
    {
      assert HasRow(tx.batch, 1, row);
    }
  }

  lemma LoneCommitExplained(l: State, rows: map<Row, int>, receipts: map<Row, string>, horizon: string, tx: Tx)
    requires tx.call.Consume? && tx.batch == [tx.call.entry]
    requires Agree(l, rows, receipts, horizon) && !Less(tx.call.entry.row.day, horizon)
    requires Charging(rows, receipts, tx, 1)
    ensures Explained(l, tx.call, CommitOutcome(rows, tx), rows + tx.writes, receipts, horizon)
  {
    assert tx.batch[0] == tx.call.entry;
    AdmissionExplained(l, rows, receipts, horizon, tx.call);
    LoneCommit(rows, receipts, tx);
  }

  lemma CommitDecides(rows: map<Row, int>, receipts: map<Row, string>, tx: Tx)
    requires tx.phase.Commit? && CommitOk(rows, receipts, tx, tx.phase.outcome)
    ensures Decision(tx).None? && Decision(Step(rows, receipts, tx)) == Some(CommitOutcome(rows, tx))
    ensures RowsAfter(rows, tx) == rows + tx.writes && ReceiptsAfter(receipts, tx) == Recorded(receipts, tx)
  {
  }

  lemma CommitExplained(c: Config, l: State, rows: map<Row, int>, receipts: map<Row, string>, horizon: string, tx: Tx)
    requires StrictTotal(c.before) && Planned(c, tx) && Shape(c, tx) && !Less(tx.call.day, horizon)
    requires Agree(l, rows, receipts, horizon)
    requires tx.phase.Commit? && CommitOk(rows, receipts, tx, tx.phase.outcome)
    ensures StepExplained(l, rows, receipts, horizon, tx)
  {
    CommitDecides(rows, receipts, tx);
    if tx.call.Consume? {
      assert tx.batch[0] == tx.call.entry;
      LoneCommitExplained(l, rows, receipts, horizon, tx);
    } else {
      BatchCommitExplained(c, l, rows, receipts, horizon, tx);
    }
    FixesAnswer(l, rows, receipts, horizon, tx, CommitOutcome(rows, tx), rows + tx.writes, Recorded(receipts, tx));
  }

  predicate Quiet(phase: Phase) {
    phase.Advisory? || phase.Insert? || phase.Update? || phase.WriteReceipt? || phase.ReadUsed? || phase.End?
  }

  /** These statements fix no answer and commit nothing. */
  lemma QuietStep(rows: map<Row, int>, receipts: map<Row, string>, tx: Tx)
    requires Quiet(tx.phase) && (tx.phase.ReadUsed? ==> tx.call.Consume?)
    ensures Decision(tx).Some? || Decision(Step(rows, receipts, tx)).None?
  {
  }

  lemma ActExplained(c: Config, l: State, rows: map<Row, int>, receipts: map<Row, string>, horizon: string, tx: Tx)
    requires Ready(c, l, rows, receipts, horizon, tx)
    requires forall row <- rows :: rows[row] >= 0
    ensures StepExplained(l, rows, receipts, horizon, tx)
  {
    match tx.phase
    case Upsert => UpsertExplained(c, l, rows, receipts, horizon, tx);
    case ReadReceipt => ReadReceiptExplained(c, l, rows, receipts, horizon, tx);
    case Lock(_) => LockExplained(c, l, rows, receipts, horizon, tx);
    case Commit(_) => CommitExplained(c, l, rows, receipts, horizon, tx);
    case _ => QuietStep(rows, receipts, tx);
  }

  // One action

  /** The action's events, if any, are explained; otherwise the sequential state still agrees. */
  ghost predicate ActionExplained(c: Config, s: Sys, l: State, a: Action)
    requires Enabled(c, s, a)
  {
    var s', events := After(c, s, a), EventsAt(c, s, a);
    if events == [] then Agree(l, s'.rows, s'.receipts, s'.horizon)
    else |events| == 1 && Explained(l, events[0].call, events[0].outcome, s'.rows, s'.receipts, s'.horizon)
  }

  lemma SwitchedOffCallExplained(l: State, s: Sys, call: Call)
    requires call.Consume? && SwitchedOff(call.entry) && call.entry.amount >= 1
    requires forall row <- s.rows :: s.rows[row] >= 0
    requires Agree(l, s.rows, s.receipts, s.horizon) && !Less(call.entry.row.day, s.horizon)
    ensures Explained(l, call, Denial(call.entry, 0), s.rows, s.receipts, s.horizon)
  {
    assert Get(s.rows, call.entry.row) >= 0;
    DenialExplained(l, s.rows, s.receipts, s.horizon, call, 0);
  }

  lemma SwitchedOffBatchExplained(c: Config, l: State, s: Sys, tx: Tx)
    requires StrictTotal(c.before) && Planned(c, tx) && Shape(c, tx) && tx.call.ConsumeAll?
    requires Agree(l, s.rows, s.receipts, s.horizon) && !Less(tx.call.day, s.horizon)
    requires exists e <- tx.batch :: SwitchedOff(e)
    ensures Explained(l, tx.call, Spent(false), s.rows, s.receipts, s.horizon)
  {
    var e :| e in tx.batch && SwitchedOff(e);
    assert Over(e, Get(s.rows, e.row));
    AdmittedIffAllFit(tx.batch, s.rows);
    RefusalExplained(c, l, s.rows, s.receipts, s.horizon, tx);
  }

  /** When the answer is fixed before any statement. */
  lemma EarlyDecision(tx: Tx)
    requires tx.phase == FirstPhase(tx.call, tx.batch) && Decision(tx).Some?
    ensures if tx.call.Consume? then SwitchedOff(tx.call.entry) && Decision(tx).value == Denial(tx.call.entry, 0)
            else tx.call.ConsumeAll? && DistinctRows(tx.batch) && (exists e <- tx.batch :: SwitchedOff(e))
                 && Decision(tx).value == Spent(false)
  {
    NothingExhaustedUndecided(tx.call, tx.batch);
  }

  lemma StartIsPlanned(c: Config, call: Call)
    ensures Planned(c, Start(c, call))
  {
  }

  /** A call that is refused before any statement: a switched-off surface. */
  lemma EarlyConsumeExplained(c: Config, s: Sys, l: State, call: Call)
    requires StrictTotal(c.before) && Inv(c, s) && Enabled(c, s, Begin(call)) && call.Consume?
    requires Agree(l, s.rows, s.receipts, s.horizon) && Decision(Start(c, call)).Some?
    ensures ActionExplained(c, s, l, Begin(call))
  {
    StartHasShape(c, call);
    EarlyDecision(Start(c, call));
    StartIsPlanned(c, call);
    assert call.entry in EntriesOf(call);
    SwitchedOffCallExplained(l, s, call);
  }

  lemma EarlyBatchExplained(c: Config, s: Sys, l: State, call: Call)
    requires StrictTotal(c.before) && Inv(c, s) && Enabled(c, s, Begin(call)) && !call.Consume?
    requires Agree(l, s.rows, s.receipts, s.horizon) && Decision(Start(c, call)).Some?
    ensures ActionExplained(c, s, l, Begin(call))
  {
    StartHasShape(c, call);
    EarlyDecision(Start(c, call));
    StartIsPlanned(c, call);
    SwitchedOffBatchExplained(c, l, s, Start(c, call));
  }

  lemma BeginExplained(c: Config, s: Sys, l: State, call: Call)
    requires StrictTotal(c.before) && Inv(c, s) && Enabled(c, s, Begin(call))
    requires Agree(l, s.rows, s.receipts, s.horizon)
    ensures ActionExplained(c, s, l, Begin(call))
  {
    if Decision(Start(c, call)).Some? {
      if call.Consume? {
        EarlyConsumeExplained(c, s, l, call);
      } else {
        EarlyBatchExplained(c, s, l, call);
      }
    }
  }

  lemma SweepExplained(c: Config, s: Sys, l: State, cutoff: DayText, rows: set<Row>, receipts: set<Row>)
    requires Enabled(c, s, Sweep(cutoff, rows, receipts))
    requires Agree(l, s.rows, s.receipts, s.horizon)
    ensures ActionExplained(c, s, l, Sweep(cutoff, rows, receipts))
  {
    var horizon' := Later(s.horizon, cutoff);
    forall row: Row | !Less(row.day, horizon')
      ensures AgreeAt(l, s.rows - rows, s.receipts - receipts, row)
    {
      if Less(row.day, s.horizon) && Less(s.horizon, cutoff) {
        LessTransitive(row.day, s.horizon, cutoff);
      }
      assert AgreeAt(l, s.rows, s.receipts, row);
      if Less(row.day, cutoff) {
        SweptIsPast(row.day, s.horizon, cutoff);
      }
    }
  }

  lemma ActIsExplained(c: Config, s: Sys, l: State, t: nat)
    requires Enabled(c, s, Act(t))
    requires StepExplained(l, s.rows, s.receipts, s.horizon, s.txs[t])
    ensures ActionExplained(c, s, l, Act(t))
  {
    StepKeepsStatics(s.rows, s.receipts, s.txs[t]);
  }

  ghost predicate AllPlanned(c: Config, txs: seq<Tx>) {
    forall t | 0 <= t < |txs| :: Planned(c, txs[t])
  }

  lemma AnyActionExplained(c: Config, s: Sys, l: State, a: Action)
    requires StrictTotal(c.before) && Inv(c, s) && Enabled(c, s, a) && AllPlanned(c, s.txs)
    requires Agree(l, s.rows, s.receipts, s.horizon)
    ensures ActionExplained(c, s, l, a)
  {
    match a
    case Begin(call) => BeginExplained(c, s, l, call);
    case Act(t) =>
      ActExplained(c, l, s.rows, s.receipts, s.horizon, s.txs[t]);
      ActIsExplained(c, s, l, t);
    case Abort(t) =>
    case Sweep(cutoff, rows, receipts) => SweepExplained(c, s, l, cutoff, rows, receipts);
  }

  lemma SamePlan(c: Config, tx: Tx, tx': Tx)
    requires Planned(c, tx) && tx'.batch == tx.batch && tx'.call == tx.call
    ensures Planned(c, tx')
  {
  }

  lemma ReplacedIsPlanned(c: Config, txs: seq<Tx>, t: nat, tx: Tx)
    requires AllPlanned(c, txs) && t < |txs| && Planned(c, tx)
    ensures AllPlanned(c, txs[t := tx])
  {
  }

  lemma ActKeepsPlans(c: Config, s: Sys, t: nat)
    requires Enabled(c, s, Act(t)) && AllPlanned(c, s.txs)
    ensures AllPlanned(c, s.txs[t := Step(s.rows, s.receipts, s.txs[t])])
  {
    StepKeepsStatics(s.rows, s.receipts, s.txs[t]);
    SamePlan(c, s.txs[t], Step(s.rows, s.receipts, s.txs[t]));
    ReplacedIsPlanned(c, s.txs, t, Step(s.rows, s.receipts, s.txs[t]));
  }

  lemma AbortKeepsPlans(c: Config, s: Sys, t: nat)
    requires t < |s.txs| && AllPlanned(c, s.txs)
    ensures AllPlanned(c, s.txs[t := Finish(s.txs[t], Failed)])
  {
    SamePlan(c, s.txs[t], Finish(s.txs[t], Failed));
    ReplacedIsPlanned(c, s.txs, t, Finish(s.txs[t], Failed));
  }

  lemma ActionKeepsPlans(c: Config, s: Sys, a: Action)
    requires Enabled(c, s, a) && AllPlanned(c, s.txs)
    ensures AllPlanned(c, After(c, s, a).txs)
  {
    match a
    case Begin(call) => StartIsPlanned(c, call);
    case Act(t) => ActKeepsPlans(c, s, t);
    case Abort(t) => AbortKeepsPlans(c, s, t);
    case Sweep(_, _, _) =>
  }

  // Whole runs

  lemma {:induction false} RunIsSequential(c: Config, s: Sys, l: State, actions: seq<Action>)
    requires StrictTotal(c.before) && Inv(c, s) && Run(c, s, actions)
    requires AllPlanned(c, s.txs)
    requires Agree(l, s.rows, s.receipts, s.horizon)
    ensures Replays(l, History(c, s, actions))
    ensures var s' := EndOf(c, s, actions);
            Agree(Replay(l, History(c, s, actions)), s'.rows, s'.receipts, s'.horizon)
    decreases |actions|
  {
    if actions != [] {
      var a := actions[0];
      var s', events := After(c, s, a), EventsAt(c, s, a);
      AnyActionExplained(c, s, l, a);
      ActionKeepsInv(c, s, a);
      ActionKeepsPlans(c, s, a);
      var rest := History(c, s', actions[1..]);
      if events == [] {
        RunIsSequential(c, s', l, actions[1..]);
        assert History(c, s, actions) == rest;
      } else {
        RunIsSequential(c, s', Apply(l, events[0].call).0, actions[1..]);
        var h := History(c, s, actions);
        assert h == events + rest && h[0] == events[0] && h[1..] == rest;
      }
    }
  }

  /**
   * Linearizability: whatever the interleaving, the calls of a run get the answers, and leave the
   * rows and receipts, that the sequential store gives and leaves when the same calls are made one
   * at a time in the order of the history.
   */
  lemma EveryRunIsSequential(c: Config, actions: seq<Action>)
    requires StrictTotal(c.before) && Run(c, INIT, actions)
    ensures var h, s := History(c, INIT, actions), EndOf(c, INIT, actions);
            Replays(EMPTY, h) && Agree(Replay(EMPTY, h), s.rows, s.receipts, s.horizon)
  {
    InitIsOk(c);
    RunIsSequential(c, INIT, EMPTY, actions);
  }
}
