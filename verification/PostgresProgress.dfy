/** The protocol never deadlocks, and every call can be driven to its end. */
module PostgresProgress {
  import opened CounterRows
  import opened Ledger
  import opened SortedBatch
  import opened Postgres
  import opened PostgresInvariant

  /** The transaction waits for the lock of a row that another one has. */
  predicate WaitsFor(s: Sys, t: nat, row: Row) {
    t < |s.txs| && Running(s.txs[t].phase) && Needs(s.rows, s.txs[t]) == Some(row) && !Free(s, t, row)
  }

  /** The transactions that wait for rows further on in the global order. */
  ghost function WaitingBeyond(c: Config, s: Sys, row: Row): set<nat> {
    set v: nat | v < |s.txs| && WaitsBeyond(c, s, v, row)
  }

  ghost predicate WaitsBeyond(c: Config, s: Sys, v: nat, row: Row)
    requires v < |s.txs|
  {
    Needs(s.rows, s.txs[v]).Some? && WaitsFor(s, v, Needs(s.rows, s.txs[v]).value)
    && RowBefore(c.before, row, Needs(s.rows, s.txs[v]).value)
  }

  /** The next statement of a transaction that already has the row's lock never waits for it. */
  lemma OwnRowIsFree(c: Config, s: Sys, t: nat, row: Row)
    requires Inv(c, s) && t < |s.txs| && row in s.txs[t].held
    ensures Free(s, t, row)
  {
    forall u | 0 <= u < |s.txs| && u != t
      ensures row !in s.txs[u].held
    {
      assert Apart(c, s.txs[t], s.txs[u]);
    }
  }

  /** No two transactions insert the same receipt: the advisory lock keeps them apart. */
  lemma ReceiptIsFree(c: Config, s: Sys, t: nat)
    requires Inv(c, s) && t < |s.txs| && s.txs[t].phase.WriteReceipt? && s.txs[t].call.ConsumeAllOnce?
    ensures ReceiptFree(s, t, s.txs[t].call.receipt)
  {
    assert TxOk(c, s.rows, s.receipts, s.horizon, s.txs[t]);
    forall u | 0 <= u < |s.txs| && u != t && s.txs[u].recorded && s.txs[u].call.ConsumeAllOnce?
      ensures s.txs[u].call.receipt != s.txs[t].call.receipt
    {
      assert TxOk(c, s.rows, s.receipts, s.horizon, s.txs[u]);
      assert s.txs[u].advisory by {
        RecordedHasAdvisory(s.rows, s.receipts, s.txs[u]);
      }
      assert Apart(c, s.txs[t], s.txs[u]);
    }
  }

  lemma RecordedHasAdvisory(rows: map<Row, int>, receipts: map<Row, string>, tx: Tx)
    requires Running(tx.phase) && PhaseOk(rows, receipts, tx) && tx.recorded && tx.call.ConsumeAllOnce?
    ensures tx.advisory
  {
  }

  /** A transaction with row locks that waits does so at an entry beyond all rows it has locked. */
  lemma HolderWaitsBeyond(c: Config, rows: map<Row, int>, receipts: map<Row, string>, tx: Tx, row: Row)
    requires Shape(c, tx) && Running(tx.phase) && PhaseOk(rows, receipts, tx) && row in tx.held
    requires Needs(rows, tx).Some? && Needs(rows, tx).value !in tx.held
    ensures RowBefore(c.before, row, Needs(rows, tx).value)
  {
    var i := tx.phase.i;
    assert HasRow(tx.batch, i, row);
  }

  /** Only an attempt without its advisory lock, or a receipt about to be written, waits without a row. */
  lemma BlockedByRowOrAdvisory(c: Config, s: Sys, t: nat)
    requires Inv(c, s) && t < |s.txs| && Running(s.txs[t].phase) && !CanStep(c, s, t)
    ensures (Needs(s.rows, s.txs[t]).Some? && WaitsFor(s, t, Needs(s.rows, s.txs[t]).value))
            || (s.txs[t].phase.Advisory? && s.txs[t].call.ConsumeAllOnce? && !AdvisoryFree(c, s, t, s.txs[t].call.receipt))
  {
    if s.txs[t].phase.WriteReceipt? && s.txs[t].call.ConsumeAllOnce? {
      ReceiptIsFree(c, s, t);
    }
  }

  /** Someone who blocks a row can step, or waits for a row further on; so following the waits ends. */
  lemma RowWaitEnds(c: Config, s: Sys, t: nat, row: Row) returns (u: nat)
    requires StrictTotal(c.before) && Inv(c, s) && WaitsFor(s, t, row)
    ensures u < |s.txs| && CanStep(c, s, u)
    decreases WaitingBeyond(c, s, row)
  {
    u :| 0 <= u < |s.txs| && u != t && row in s.txs[u].held;
    var tx := s.txs[u];
    assert TxOk(c, s.rows, s.receipts, s.horizon, tx);
    if !CanStep(c, s, u) {
      BlockedByRowOrAdvisory(c, s, u);
      HolderIsNotOpening(s.rows, s.receipts, tx, row);
      var next := Needs(s.rows, tx).value;
      if next in tx.held {
        OwnRowIsFree(c, s, u, next);
      }
      HolderWaitsBeyond(c, s.rows, s.receipts, tx, row);
      WaitsShrink(c, s, u, row, next);
      u := RowWaitEnds(c, s, u, next);
    }
  }

  lemma HolderIsNotOpening(rows: map<Row, int>, receipts: map<Row, string>, tx: Tx, row: Row)
    requires Running(tx.phase) && PhaseOk(rows, receipts, tx) && row in tx.held
    ensures !tx.phase.Advisory?
  {
  }

  lemma WaitsShrink(c: Config, s: Sys, u: nat, row: Row, next: Row)
    requires StrictTotal(c.before) && u < |s.txs| && WaitsFor(s, u, next) && RowBefore(c.before, row, next)
    ensures WaitingBeyond(c, s, next) < WaitingBeyond(c, s, row)
  {
    RowBeforeIsStrictTotal(c.before, next, next, next);
    forall v: nat | v < |s.txs| && WaitsBeyond(c, s, v, next)
      ensures WaitsBeyond(c, s, v, row)
    {
      RowBeforeIsStrictTotal(c.before, row, next, Needs(s.rows, s.txs[v]).value);
    }
    assert u in WaitingBeyond(c, s, row) && u !in WaitingBeyond(c, s, next);
  }

  lemma SomeoneCanStep(c: Config, s: Sys, t: nat) returns (u: nat)
    requires StrictTotal(c.before) && Inv(c, s) && t < |s.txs| && Running(s.txs[t].phase)
    ensures u < |s.txs| && CanStep(c, s, u)
  {
    u := t;
    if !CanStep(c, s, u) {
      BlockedByRowOrAdvisory(c, s, u);
      if Needs(s.rows, s.txs[u]).Some? && WaitsFor(s, u, Needs(s.rows, s.txs[u]).value) {
        u := RowWaitEnds(c, s, u, Needs(s.rows, s.txs[u]).value);
      } else {
        u := AdvisoryWaitEnds(c, s, u);
      }
    }
  }

  lemma AdvisoryWaitEnds(c: Config, s: Sys, t: nat) returns (u: nat)
    requires StrictTotal(c.before) && Inv(c, s) && t < |s.txs| && s.txs[t].call.ConsumeAllOnce?
    requires !AdvisoryFree(c, s, t, s.txs[t].call.receipt)
    ensures u < |s.txs| && CanStep(c, s, u)
  {
    u :| 0 <= u < |s.txs| && u != t && s.txs[u].advisory && s.txs[u].call.ConsumeAllOnce?;
    assert TxOk(c, s.rows, s.receipts, s.horizon, s.txs[u]);
    if !CanStep(c, s, u) {
      BlockedByRowOrAdvisory(c, s, u);
      assert !s.txs[u].phase.Advisory?;
      u := RowWaitEnds(c, s, u, Needs(s.rows, s.txs[u]).value);
    }
  }

  /**
   * No deadlock: in every reachable state with an unfinished call, the next statement of some
   * unfinished call can complete.
   */
  lemma NoDeadlock(c: Config, actions: seq<Action>, t: nat)
    requires StrictTotal(c.before) && Run(c, INIT, actions)
    requires t < |EndOf(c, INIT, actions).txs| && Running(EndOf(c, INIT, actions).txs[t].phase)
    ensures exists u: nat | u < |EndOf(c, INIT, actions).txs| :: CanStep(c, EndOf(c, INIT, actions), u)
  {
    InitIsOk(c);
    RunKeepsInv(c, INIT, actions);
    var u := SomeoneCanStep(c, EndOf(c, INIT, actions), t);
  }

  // Finishing

  /** An upper bound on the statements a transaction with `n` entries still issues. */
  function Left(n: nat, phase: Phase): nat {
    match phase
    case Upsert => 2
    case ReadUsed => 1
    case Advisory => 3 * n + 5
    case ReadReceipt => 3 * n + 4
    case Insert(i) => if i < n then 3 * n - 2 * i + 3 else 0
    case Lock(i) => if i < n then 3 * n - 2 * i + 2 else 0
    case Update(i) => if i < n then n - i + 2 else 0
    case WriteReceipt => 2
    case Commit(_) => 1
    case End(_) => 1
    case Done(_) => 0
    case Failed => 0
  }

  function StatementsLeft(tx: Tx): nat {
    Left(|tx.batch|, tx.phase)
  }

  lemma LeftAfterUpdates(call: Call, batch: seq<Entry>, i: nat)
    requires i <= |batch|
    ensures Left(|batch|, AfterUpdates(call, batch, i)) <= |batch| - i + 2
  {
  }

  lemma LeftAfterLocks(call: Call, batch: seq<Entry>, exhausted: seq<ExhaustedCounter>, i: nat)
    requires i <= |batch|
    ensures Left(|batch|, AfterLocks(call, batch, exhausted, i)) <= 3 * |batch| - 2 * i + 3
  {
    LeftAfterUpdates(call, batch, 0);
  }

  predicate InRange(tx: Tx) {
    match tx.phase
    case Upsert => tx.call.Consume?
    case ReadUsed => tx.call.Consume?
    case ReadReceipt => tx.call.ConsumeAllOnce?
    case Insert(i) => i < |tx.batch|
    case Lock(i) => i < |tx.batch|
    case Update(i) => i < |tx.batch|
    case WriteReceipt => tx.call.ConsumeAllOnce?
    case _ => true
  }

  lemma PhaseInRange(rows: map<Row, int>, receipts: map<Row, string>, tx: Tx)
    requires PhaseOk(rows, receipts, tx)
    ensures InRange(tx)
  {
  }

  lemma LockLeavesLess(rows: map<Row, int>, tx: Tx, i: nat)
    requires tx.phase == Lock(i) && i < |tx.batch|
    ensures StatementsLeft(LockStep(rows, tx, i, tx.batch[i])) < StatementsLeft(tx)
  {
    LeftAfterLocks(tx.call, tx.batch, LockStep(rows, tx, i, tx.batch[i]).exhausted, i + 1);
  }

  lemma UpdateLeavesLess(rows: map<Row, int>, tx: Tx, i: nat)
    requires tx.phase == Update(i) && i < |tx.batch|
    ensures StatementsLeft(UpdateStep(rows, tx, i, tx.batch[i])) < StatementsLeft(tx)
  {
    LeftAfterUpdates(tx.call, tx.batch, i + 1);
  }

  lemma ReceiptLeavesLess(receipts: map<Row, string>, tx: Tx, receipt: Row, fingerprint: string)
    requires tx.phase == ReadReceipt
    ensures StatementsLeft(ReceiptStep(receipts, tx, receipt, fingerprint)) < StatementsLeft(tx)
  {
    LeftAfterLocks(tx.call, tx.batch, [], 0);
  }

  lemma OtherStepLeavesLess(rows: map<Row, int>, receipts: map<Row, string>, tx: Tx)
    requires Running(tx.phase) && InRange(tx) && !tx.phase.Lock? && !tx.phase.Update? && !tx.phase.ReadReceipt?
    ensures StatementsLeft(Step(rows, receipts, tx)) < StatementsLeft(tx)
  {
  }

  lemma StepLeavesLess(rows: map<Row, int>, receipts: map<Row, string>, tx: Tx)
    requires Running(tx.phase) && InRange(tx)
    ensures StatementsLeft(Step(rows, receipts, tx)) < StatementsLeft(tx)
  {
    match tx.phase
    case ReadReceipt => ReceiptLeavesLess(receipts, tx, tx.call.receipt, tx.call.fingerprint);
    case Lock(i) => LockLeavesLess(rows, tx, i);
    case Update(i) => UpdateLeavesLess(rows, tx, i);
    case _ => OtherStepLeavesLess(rows, receipts, tx);
  }

  function TotalLeft(txs: seq<Tx>): nat {
    if txs == [] then 0 else StatementsLeft(txs[0]) + TotalLeft(txs[1..])
  }

  lemma {:induction false} ReplaceLeavesLess(txs: seq<Tx>, t: nat, tx: Tx)
    requires t < |txs| && StatementsLeft(tx) < StatementsLeft(txs[t])
    ensures TotalLeft(txs[t := tx]) < TotalLeft(txs)
  {
    if t == 0 {
      assert txs[0 := tx][1..] == txs[1..];
    } else {
      ReplaceLeavesLess(txs[1..], t - 1, tx);
      assert txs[t := tx][1..] == txs[1..][t - 1 := tx];
    }
  }

  predicate OnlyStatements(actions: seq<Action>) {
    forall a <- actions :: a.Act?
  }

  lemma ActLeavesLess(c: Config, s: Sys, t: nat)
    requires Inv(c, s) && Enabled(c, s, Act(t))
    ensures TotalLeft(After(c, s, Act(t)).txs) < TotalLeft(s.txs)
  {
    assert TxOk(c, s.rows, s.receipts, s.horizon, s.txs[t]);
    PhaseInRange(s.rows, s.receipts, s.txs[t]);
    StepLeavesLess(s.rows, s.receipts, s.txs[t]);
    ReplaceLeavesLess(s.txs, t, Step(s.rows, s.receipts, s.txs[t]));
  }

  lemma AbortLeavesLess(c: Config, s: Sys, t: nat)
    requires Inv(c, s) && Enabled(c, s, Abort(t))
    ensures TotalLeft(After(c, s, Abort(t)).txs) < TotalLeft(s.txs)
  {
    assert TxOk(c, s.rows, s.receipts, s.horizon, s.txs[t]);
    PhaseInRange(s.rows, s.receipts, s.txs[t]);
    StepLeavesLess(s.rows, s.receipts, s.txs[t]);
    ReplaceLeavesLess(s.txs, t, Finish(s.txs[t], Failed));
  }

  predicate NoNewCalls(actions: seq<Action>) {
    forall a <- actions :: !a.Begin?
  }

  /** The statements and aborts among some actions. */
  function Work(actions: seq<Action>): nat
    decreases |actions|
  {
    if actions == [] then 0
    else (if actions[0].Act? || actions[0].Abort? then 1 else 0) + Work(actions[1..])
  }

  /**
   * Without new calls, no schedule goes on forever: every statement and every abort brings the end
   * nearer, and sweeps do not put it off.
   */
  lemma {:induction false} WorkIsBounded(c: Config, s: Sys, actions: seq<Action>)
    requires StrictTotal(c.before) && Inv(c, s) && Run(c, s, actions) && NoNewCalls(actions)
    ensures Work(actions) <= TotalLeft(s.txs)
    decreases |actions|
  {
    if actions != [] {
      assert !actions[0].Begin?;
      if actions[0].Act? {
        ActLeavesLess(c, s, actions[0].t);
      } else if actions[0].Abort? {
        AbortLeavesLess(c, s, actions[0].t);
      }
      ActionKeepsInv(c, s, actions[0]);
      WorkIsBounded(c, After(c, s, actions[0]), actions[1..]);
    }
  }

  /** From every reachable state, some schedule of statements finishes every call. */
  lemma EveryCallCanFinish(c: Config, s: Sys) returns (actions: seq<Action>)
    requires StrictTotal(c.before) && Inv(c, s)
    ensures Run(c, s, actions) && OnlyStatements(actions)
    ensures forall tx <- EndOf(c, s, actions).txs :: !Running(tx.phase)
    decreases TotalLeft(s.txs)
  {
    if t :| 0 <= t < |s.txs| && Running(s.txs[t].phase) {
      var u := SomeoneCanStep(c, s, t);
      var a := Act(u);
      ActLeavesLess(c, s, u);
      ActionKeepsInv(c, s, a);
      var rest := EveryCallCanFinish(c, After(c, s, a));
      actions := [a] + rest;
      assert actions[0] == a && actions[1..] == rest;
    } else {
      actions := [];
    }
  }
}
