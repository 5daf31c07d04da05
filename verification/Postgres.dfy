/**
 * The durable store as concurrent transactions over shared tables.
 *
 * A call runs as a sequence of statements; each statement is one step, and the steps of different
 * calls interleave freely. Isolation is READ COMMITTED: a statement sees the latest committed rows
 * and the transaction's own writes. `INSERT`, `SELECT ... FOR UPDATE` and `UPDATE` take a row lock
 * that lasts until the transaction ends, an uncommitted insert makes a second insert of the same
 * key wait, and `pg_advisory_xact_lock` takes a lock on a hash of the attempt.
 */
module Postgres {
  import opened Text
  import opened CounterRows
  import opened Ledger
  import opened LedgerHistory
  import opened SortedBatch

  /** What all instances share: the order of strings, and the hash behind the advisory lock. */
  datatype Config = Config(before: Order, hash: Row -> int)

  /** The statement a transaction issues next, or how it ended. */
  datatype Phase =
    | Upsert                     // consume: INSERT ... ON CONFLICT DO UPDATE ... RETURNING
    | ReadUsed                   // consume, refused: the second SELECT
    | Advisory                   // pg_advisory_xact_lock
    | ReadReceipt                // SELECT fingerprint
    | Insert(i: nat)             // INSERT ... ON CONFLICT DO NOTHING
    | Lock(i: nat)               // SELECT ... FOR UPDATE
    | Update(i: nat)             // UPDATE ... SET used = used + amount
    | WriteReceipt               // INSERT INTO admission_counter_receipts
    | Commit(outcome: Outcome)   // COMMIT of the writes
    | End(outcome: Outcome)      // ROLLBACK of a refusal, or COMMIT of nothing
    | Done(outcome: Outcome)
    | Failed                     // an error ended the transaction and the caller got it

  datatype Tx = Tx(
    call: Call, batch: seq<Entry>, phase: Phase,
    /** Row locks, and the rows and values written but not committed. */
    held: set<Row>, writes: map<Row, int>,
    exhausted: seq<ExhaustedCounter>,
    /** Whether it has the advisory lock, and whether its receipt row is written but not committed. */
    advisory: bool, recorded: bool)

  datatype Sys = Sys(
    rows: map<Row, int>, receipts: map<Row, string>, txs: seq<Tx>,
    /** Every sweep so far deleted only rows of days before this one. */
    horizon: string)

  const INIT := Sys(map[], map[], [], "")

  datatype Action =
    | Begin(call: Call)
    | Act(t: nat)
    | Abort(t: nat)
    | Sweep(cutoff: DayText, rows: set<Row>, receipts: set<Row>)

  predicate Running(phase: Phase) {
    !phase.Done? && !phase.Failed?
  }

  // Starting a call

  /** What the caller of a refused batch is told. */
  function Refusal(call: Call, exhausted: seq<ExhaustedCounter>): Outcome {
    if call.ConsumeAllOnce? then Refused(exhausted) else Spent(false)
  }

  function Denial(entry: Entry, used: int): Outcome {
    Counted(false, used, entry.limit, entry.resetAt)
  }

  predicate SwitchedOff(entry: Entry) {
    entry.limit <= 0
  }

  /** The first phase of a call whose entries are in order. */
  function FirstPhase(call: Call, batch: seq<Entry>): Phase {
    if call.Consume? then if SwitchedOff(call.entry) then Done(Denial(call.entry, 0)) else Upsert
    else if !DistinctRows(batch) then Done(DuplicateRows)
    else if call.ConsumeAllOnce? then Advisory
    else if exists e <- batch :: SwitchedOff(e) then Done(Spent(false))
    else AfterLocks(call, batch, [], 0)
  }

  function Start(c: Config, call: Call): Tx {
    var batch := Sort(c.before, EntriesOf(call));
    Tx(call, batch, FirstPhase(call, batch), {}, map[], [], false, false)
  }

  /** `consumeBatch` after `i` entries are locked and checked. */
  function AfterLocks(call: Call, batch: seq<Entry>, exhausted: seq<ExhaustedCounter>, i: nat): Phase {
    if i < |batch| then Insert(i)
    else if exhausted != [] then End(Refusal(call, exhausted))
    else AfterUpdates(call, batch, 0)
  }

  /** `consumeBatch` after `i` entries are charged, and what follows it. */
  function AfterUpdates(call: Call, batch: seq<Entry>, i: nat): Phase {
    if i < |batch| then Update(i)
    else if call.ConsumeAllOnce? then WriteReceipt
    else Commit(Spent(true))
  }

  // One statement

  /** No other transaction has the row's lock. */
  predicate Free(s: Sys, t: nat, row: Row) {
    forall u | 0 <= u < |s.txs| && u != t :: row !in s.txs[u].held
  }

  /** No other transaction has the advisory lock of an attempt with the same hash. */
  predicate AdvisoryFree(c: Config, s: Sys, t: nat, receipt: Row) {
    forall u | 0 <= u < |s.txs| && u != t ::
      s.txs[u].advisory && s.txs[u].call.ConsumeAllOnce? ==> c.hash(s.txs[u].call.receipt) != c.hash(receipt)
  }

  /** No other transaction has inserted this receipt without having committed it. */
  predicate ReceiptFree(s: Sys, t: nat, receipt: Row) {
    forall u | 0 <= u < |s.txs| && u != t ::
      s.txs[u].recorded && s.txs[u].call.ConsumeAllOnce? ==> s.txs[u].call.receipt != receipt
  }

  /** The row whose lock the next statement needs, if it needs one. */
  function Needs(rows: map<Row, int>, tx: Tx): Option<Row> {
    match tx.phase
    case Upsert =>
      if tx.call.Consume? && tx.call.entry.amount <= tx.call.entry.limit then Some(tx.call.entry.row) else None
    case Insert(i) => if i < |tx.batch| && tx.batch[i].row !in rows then Some(tx.batch[i].row) else None
    case Lock(i) => PresentRow(rows, tx, i)
    case Update(i) => PresentRow(rows, tx, i)
    case _ => None
  }

  function PresentRow(rows: map<Row, int>, tx: Tx, i: nat): Option<Row> {
    if i < |tx.batch| && (tx.batch[i].row in rows || tx.batch[i].row in tx.writes) then Some(tx.batch[i].row) else None
  }

  /** Whether the next statement can complete now. */
  predicate CanStep(c: Config, s: Sys, t: nat)
    requires t < |s.txs|
  {
    var tx := s.txs[t];
    && Running(tx.phase)
    && (Needs(s.rows, tx).Some? ==> Free(s, t, Needs(s.rows, tx).value))
    && (tx.phase.Advisory? && tx.call.ConsumeAllOnce? ==> AdvisoryFree(c, s, t, tx.call.receipt))
    && (tx.phase.WriteReceipt? && tx.call.ConsumeAllOnce? ==> ReceiptFree(s, t, tx.call.receipt))
  }

  function Finish(tx: Tx, phase: Phase): Tx {
    tx.(phase := phase, held := {}, writes := map[], advisory := false, recorded := false)
  }

  /** What a statement of this transaction reads at a row: its own write first, then the committed value. */
  function Visible(rows: map<Row, int>, tx: Tx, row: Row): int {
    if row in tx.writes then tx.writes[row] else Get(rows, row)
  }

  function UpsertStep(rows: map<Row, int>, tx: Tx, e: Entry): Tx {
    var total := Get(rows, e.row) + e.amount;
    if e.amount > e.limit || total > e.limit then tx.(phase := ReadUsed)
    else tx.(held := {e.row}, writes := map[e.row := total],
             phase := Commit(Counted(true, total, e.limit, e.resetAt)))
  }

  function InsertStep(rows: map<Row, int>, tx: Tx, i: nat, e: Entry): Tx {
    if e.row in rows || e.row in tx.writes then tx.(phase := Lock(i))
    else tx.(held := tx.held + {e.row}, writes := tx.writes[e.row := 0], phase := Lock(i))
  }

  function LockStep(rows: map<Row, int>, tx: Tx, i: nat, e: Entry): Tx {
    var present := e.row in rows || e.row in tx.writes;
    var exhausted := tx.exhausted + if Over(e, Visible(rows, tx, e.row)) then [Report(e)] else [];
    tx.(held := if present then tx.held + {e.row} else tx.held, exhausted := exhausted,
        phase := AfterLocks(tx.call, tx.batch, exhausted, i + 1))
  }

  function UpdateStep(rows: map<Row, int>, tx: Tx, i: nat, e: Entry): Tx {
    var present := e.row in rows || e.row in tx.writes;
    tx.(held := if present then tx.held + {e.row} else tx.held,
        writes := if present then tx.writes[e.row := Visible(rows, tx, e.row) + e.amount] else tx.writes,
        phase := AfterUpdates(tx.call, tx.batch, i + 1))
  }

  function ReceiptStep(receipts: map<Row, string>, tx: Tx, receipt: Row, fingerprint: string): Tx {
    if receipt in receipts then
      tx.(phase := End(if receipts[receipt] == fingerprint then Replayed else Conflict))
    else tx.(phase := AfterLocks(tx.call, tx.batch, [], 0))
  }

  /** A primary-key violation aborts; otherwise the receipt row waits for the commit. */
  function RecordStep(receipts: map<Row, string>, tx: Tx, receipt: Row): Tx {
    if receipt in receipts then Finish(tx, Failed)
    else tx.(recorded := true, phase := Commit(Consumed))
  }

  /** The transaction after its next statement. */
  function Step(rows: map<Row, int>, receipts: map<Row, string>, tx: Tx): Tx {
    match tx.phase
    case Upsert => if tx.call.Consume? then UpsertStep(rows, tx, tx.call.entry) else tx
    case ReadUsed =>
      if tx.call.Consume? then Finish(tx, Done(Denial(tx.call.entry, Get(rows, tx.call.entry.row)))) else tx
    case Advisory => tx.(advisory := true, phase := ReadReceipt)
    case ReadReceipt =>
      if tx.call.ConsumeAllOnce? then ReceiptStep(receipts, tx, tx.call.receipt, tx.call.fingerprint) else tx
    case Insert(i) => if i < |tx.batch| then InsertStep(rows, tx, i, tx.batch[i]) else tx
    case Lock(i) => if i < |tx.batch| then LockStep(rows, tx, i, tx.batch[i]) else tx
    case Update(i) => if i < |tx.batch| then UpdateStep(rows, tx, i, tx.batch[i]) else tx
    case WriteReceipt => if tx.call.ConsumeAllOnce? then RecordStep(receipts, tx, tx.call.receipt) else tx
    case Commit(outcome) => Finish(tx, Done(outcome))
    case End(outcome) => Finish(tx, Done(outcome))
    case Done(_) => tx
    case Failed => tx
  }

  /** The committed counter rows after that statement: only a commit changes them. */
  function RowsAfter(rows: map<Row, int>, tx: Tx): map<Row, int> {
    if tx.phase.Commit? then rows + tx.writes else rows
  }

  function ReceiptsAfter(receipts: map<Row, string>, tx: Tx): map<Row, string> {
    if tx.phase.Commit? && tx.recorded && tx.call.ConsumeAllOnce?
    then receipts[tx.call.receipt := tx.call.fingerprint]
    else receipts
  }

  // The system

  /** The caller has not been given, and is not about to be given, an answer. */
  predicate Undecided(phase: Phase) {
    Running(phase) && !phase.ReadUsed? && !phase.End?
  }

  /**
   * When an action may happen. A sweep deletes rows of days before its cutoff that nobody has
   * locked; no call of an older day is running then, and none starts later.
   */
  predicate Enabled(c: Config, s: Sys, a: Action) {
    match a
    case Begin(call) => WellFormed(call) && !Less(call.day, s.horizon)
    case Act(t) => t < |s.txs| && CanStep(c, s, t)
    case Abort(t) => t < |s.txs| && Undecided(s.txs[t].phase)
    case Sweep(cutoff, rows, receipts) =>
      && (forall tx <- s.txs :: Running(tx.phase) ==> !Less(tx.call.day, cutoff))
      && (forall row <- rows :: Less(row.day, cutoff) && forall tx <- s.txs :: row !in tx.held)
      && (forall row <- receipts :: Less(row.day, cutoff))
  }

  function Later(horizon: string, cutoff: DayText): string {
    if Less(horizon, cutoff) then cutoff else horizon
  }

  function After(c: Config, s: Sys, a: Action): Sys
    requires Enabled(c, s, a)
  {
    match a
    case Begin(call) => s.(txs := s.txs + [Start(c, call)])
    case Act(t) =>
      var tx := s.txs[t];
      s.(rows := RowsAfter(s.rows, tx), receipts := ReceiptsAfter(s.receipts, tx),
         txs := s.txs[t := Step(s.rows, s.receipts, tx)])
    case Abort(t) => s.(txs := s.txs[t := Finish(s.txs[t], Failed)])
    case Sweep(cutoff, rows, receipts) =>
      s.(rows := s.rows - rows, receipts := s.receipts - receipts, horizon := Later(s.horizon, cutoff))
  }

  // Runs

  /** A sequence of actions, each possible when its turn comes. */
  predicate Run(c: Config, s: Sys, actions: seq<Action>)
    decreases |actions|
  {
    actions == [] || (Enabled(c, s, actions[0]) && Run(c, After(c, s, actions[0]), actions[1..]))
  }

  function EndOf(c: Config, s: Sys, actions: seq<Action>): Sys
    requires Run(c, s, actions)
    decreases |actions|
  {
    if actions == [] then s else EndOf(c, After(c, s, actions[0]), actions[1..])
  }

  /**
   * The answer already fixed for a transaction. A call with duplicate rows is an error raised
   * before any table is touched, so it has no answer.
   */
  function Decision(tx: Tx): Option<Outcome> {
    match tx.phase
    case ReadUsed => if tx.call.Consume? then Some(Denial(tx.call.entry, 0)) else None
    case End(outcome) => Some(outcome)
    case Done(outcome) => if outcome.DuplicateRows? then None else Some(outcome)
    case _ => None
  }

  /** An action is where a call takes effect when it fixes the call's answer. */
  function Decides(t: nat, before: Option<Outcome>, tx: Tx): seq<Event> {
    if before.None? && Decision(tx).Some? then [Event(t, tx.call, Decision(tx).value)] else []
  }

  function EventsAt(c: Config, s: Sys, a: Action): seq<Event>
    requires Enabled(c, s, a)
  {
    match a
    case Begin(call) => Decides(|s.txs|, None, Start(c, call))
    case Act(t) => Decides(t, Decision(s.txs[t]), Step(s.rows, s.receipts, s.txs[t]))
    case Abort(t) => []
    case Sweep(_, _, _) => []
  }

  /** The calls of a run in the order in which they take effect. */
  function History(c: Config, s: Sys, actions: seq<Action>): seq<Event>
    requires Run(c, s, actions)
    decreases |actions|
  {
    if actions == [] then []
    else EventsAt(c, s, actions[0]) + History(c, After(c, s, actions[0]), actions[1..])
  }
}
