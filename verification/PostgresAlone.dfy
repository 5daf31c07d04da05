/** A call that no other call interrupts: the statements of `Postgres` do what the methods of `PostgresClient` do. */
module PostgresAlone {
  import opened CounterRows
  import opened Ledger
  import opened LedgerHistory
  import opened SortedBatch
  import opened Postgres
  import opened PostgresInvariant
  import opened PostgresProgress
  import C = PostgresClient

  /** `n` statements, none of them the last, take a transaction from `tx` to `tx'`. */
  predicate Goes(rows: map<Row, int>, receipts: map<Row, string>, tx: Tx, tx': Tx, n: nat)
    decreases n
  {
    if n == 0 then tx == tx'
    else Running(tx.phase) && !tx.phase.Commit? && Goes(rows, receipts, Step(rows, receipts, tx), tx', n - 1)
  }

  lemma {:induction false} GoesOn(rows: map<Row, int>, receipts: map<Row, string>, a: Tx, b: Tx, c: Tx, m: nat, n: nat)
    ensures Goes(rows, receipts, a, b, m) && Goes(rows, receipts, b, c, n) ==> Goes(rows, receipts, a, c, m + n)
    decreases m
  {
    if m > 0 {
      GoesOn(rows, receipts, Step(rows, receipts, a), b, c, m - 1, n);
    }
  }

  /** What a transaction never changes before it ends. */
  predicate SameCall(a: Tx, b: Tx) {
    a.call == b.call && a.batch == b.batch && a.recorded == b.recorded
  }

  // Locking

  ghost predicate Locking(rows: map<Row, int>, tx: Tx, n: nat) {
    && n <= |tx.batch| && C.Prepared(tx.batch, n, rows, tx.writes)
    && tx.exhausted == ExhaustedBy(tx.batch[..n], rows)
    && tx.phase == AfterLocks(tx.call, tx.batch, tx.exhausted, n)
  }

  lemma VisibleIsSeen(rows: map<Row, int>, tx: Tx, row: Row)
    ensures Visible(rows, tx, row) == Get(C.Seen(rows, tx.writes), row)
    ensures row in rows || row in tx.writes <==> row in C.Seen(rows, tx.writes)
  {
  }

  lemma InsertOne(rows: map<Row, int>, tx: Tx, i: nat)
    requires i < |tx.batch| && C.Prepared(tx.batch, i, rows, tx.writes)
    ensures var tx' := InsertStep(rows, tx, i, tx.batch[i]);
            && SameCall(tx, tx') && tx'.phase == Lock(i) && tx'.exhausted == tx.exhausted
            && C.Prepared(tx.batch, i + 1, rows, tx'.writes)
  {
    C.PrepareStep(tx.batch, i, rows, tx.writes);
    VisibleIsSeen(rows, tx, tx.batch[i].row);
  }

  lemma LockOne(rows: map<Row, int>, tx: Tx, i: nat)
    requires i < |tx.batch|
    ensures C.Prepared(tx.batch, i + 1, rows, tx.writes) && tx.exhausted == ExhaustedBy(tx.batch[..i], rows) ==>
              Locking(rows, LockStep(rows, tx, i, tx.batch[i]), i + 1)
    ensures SameCall(tx, LockStep(rows, tx, i, tx.batch[i]))
  {
    var row := tx.batch[i].row;
    VisibleIsSeen(rows, tx, row);
    C.ExhaustedStep(tx.batch, i, rows);
    if C.Prepared(tx.batch, i + 1, rows, tx.writes) {
      assert Get(C.Seen(rows, tx.writes), row) == Get(rows, row);
    }
  }

  /** The transaction after one more entry is inserted, locked and checked. */
  function LockNext(rows: map<Row, int>, tx: Tx, i: nat): Tx
    requires i < |tx.batch|
  {
    LockStep(rows, InsertStep(rows, tx, i, tx.batch[i]), i, tx.batch[i])
  }

  lemma LockNextLocks(rows: map<Row, int>, tx: Tx, i: nat)
    requires i < |tx.batch|
    ensures SameCall(tx, LockNext(rows, tx, i))
    ensures Locking(rows, tx, i) ==> Locking(rows, LockNext(rows, tx, i), i + 1)
  {
    if Locking(rows, tx, i) {
      InsertOne(rows, tx, i);
    }
    LockOne(rows, InsertStep(rows, tx, i, tx.batch[i]), i);
  }

  lemma LockNextGoes(rows: map<Row, int>, receipts: map<Row, string>, tx: Tx, i: nat) returns (n: nat)
    requires i < |tx.batch| && tx.phase == Insert(i)
    ensures Goes(rows, receipts, tx, LockNext(rows, tx, i), n)
  {
    n := 2;
    var inserted := InsertStep(rows, tx, i, tx.batch[i]);
    TwoMore(rows, receipts, tx, inserted, LockNext(rows, tx, i), LockNext(rows, tx, i), 0);
  }

  /** The transaction after all entries from `i` on are locked. */
  function LockRest(rows: map<Row, int>, tx: Tx, i: nat): Tx
    requires i <= |tx.batch|
    decreases |tx.batch| - i
  {
    if i == |tx.batch| then tx else LockRest(rows, LockNext(rows, tx, i), i + 1)
  }

  lemma {:induction false} LockRestLocks(rows: map<Row, int>, tx: Tx, i: nat)
    requires i <= |tx.batch|
    ensures SameCall(tx, LockRest(rows, tx, i))
    ensures Locking(rows, tx, i) ==> Locking(rows, LockRest(rows, tx, i), |tx.batch|)
    decreases |tx.batch| - i
  {
    if i < |tx.batch| {
      LockNextLocks(rows, tx, i);
      LockRestLocks(rows, LockNext(rows, tx, i), i + 1);
    }
  }

  /** `consumeBatch` goes on at entry `i`. */
  predicate AtLock(tx: Tx, i: nat) {
    tx.phase == AfterLocks(tx.call, tx.batch, tx.exhausted, i)
  }

  lemma LockNextMovesOn(rows: map<Row, int>, tx: Tx, i: nat)
    requires i < |tx.batch|
    ensures SameCall(tx, LockNext(rows, tx, i)) && AtLock(LockNext(rows, tx, i), i + 1)
  {
  }

  lemma {:induction false} LockRestGoes(rows: map<Row, int>, receipts: map<Row, string>, tx: Tx, i: nat) returns (n: nat)
    requires i <= |tx.batch| && AtLock(tx, i)
    ensures Goes(rows, receipts, tx, LockRest(rows, tx, i), n)
    decreases |tx.batch| - i
  {
    if i == |tx.batch| {
      n := 0;
    } else {
      var m := LockNextGoes(rows, receipts, tx, i);
      LockNextMovesOn(rows, tx, i);
      n := LockRestGoes(rows, receipts, LockNext(rows, tx, i), i + 1);
      GoesOn(rows, receipts, tx, LockNext(rows, tx, i), LockRest(rows, tx, i), m, n);
      n := m + n;
    }
  }

  lemma LockAll(rows: map<Row, int>, receipts: map<Row, string>, tx: Tx) returns (tx': Tx, n: nat)
    requires Locking(rows, tx, 0)
    ensures Goes(rows, receipts, tx, tx', n) && SameCall(tx, tx') && Locking(rows, tx', |tx.batch|)
  {
    tx' := LockRest(rows, tx, 0);
    LockRestLocks(rows, tx, 0);
    n := LockRestGoes(rows, receipts, tx, 0);
  }

  lemma TwoMore(rows: map<Row, int>, receipts: map<Row, string>, a: Tx, b: Tx, c: Tx, d: Tx, n: nat)
    requires Running(a.phase) && !a.phase.Commit? && Step(rows, receipts, a) == b
    requires Running(b.phase) && !b.phase.Commit? && Step(rows, receipts, b) == c
    requires Goes(rows, receipts, c, d, n)
    ensures Goes(rows, receipts, a, d, n + 2)
  {
    assert Goes(rows, receipts, b, d, n + 1);
  }

  // Charging

  ghost predicate Charging(rows: map<Row, int>, tx: Tx, n: nat, keys: set<Row>) {
    && n <= |tx.batch| && C.ChargedTo(tx.batch, n, rows, tx.writes, keys)
    && (forall i | 0 <= i < |tx.batch| :: tx.batch[i].row in keys)
    && tx.phase == AfterUpdates(tx.call, tx.batch, n)
  }

  lemma ChargeOne(rows: map<Row, int>, tx: Tx, i: nat, keys: set<Row>)
    requires i < |tx.batch| && Charging(rows, tx, i, keys)
    ensures var tx' := UpdateStep(rows, tx, i, tx.batch[i]);
            SameCall(tx, tx') && Charging(rows, tx', i + 1, keys)
  {
    VisibleIsSeen(rows, tx, tx.batch[i].row);
    C.ChargedStep(tx.batch, i, rows, tx.writes, keys);
  }

  /** The transaction after all entries from `i` on are charged. */
  function ChargeRest(rows: map<Row, int>, tx: Tx, i: nat): Tx
    requires i <= |tx.batch|
    decreases |tx.batch| - i
  {
    if i == |tx.batch| then tx else ChargeRest(rows, UpdateStep(rows, tx, i, tx.batch[i]), i + 1)
  }

  lemma {:induction false} ChargeRestCharges(rows: map<Row, int>, tx: Tx, i: nat, keys: set<Row>)
    requires i <= |tx.batch| && Charging(rows, tx, i, keys)
    ensures SameCall(tx, ChargeRest(rows, tx, i)) && Charging(rows, ChargeRest(rows, tx, i), |tx.batch|, keys)
    decreases |tx.batch| - i
  {
    if i < |tx.batch| {
      ChargeOne(rows, tx, i, keys);
      ChargeRestCharges(rows, UpdateStep(rows, tx, i, tx.batch[i]), i + 1, keys);
    }
  }

  lemma {:induction false} ChargeRestGoes(rows: map<Row, int>, receipts: map<Row, string>, tx: Tx, i: nat)
    requires i <= |tx.batch| && tx.phase == AfterUpdates(tx.call, tx.batch, i)
    ensures Goes(rows, receipts, tx, ChargeRest(rows, tx, i), |tx.batch| - i)
    decreases |tx.batch| - i
  {
    if i < |tx.batch| {
      var charged := UpdateStep(rows, tx, i, tx.batch[i]);
      ChargeRestGoes(rows, receipts, charged, i + 1);
      OneMore(rows, receipts, tx, charged, ChargeRest(rows, tx, i), |tx.batch| - i - 1);
    }
  }

  lemma OneMore(rows: map<Row, int>, receipts: map<Row, string>, a: Tx, b: Tx, c: Tx, n: nat)
    requires Running(a.phase) && !a.phase.Commit? && Step(rows, receipts, a) == b && Goes(rows, receipts, b, c, n)
    ensures Goes(rows, receipts, a, c, n + 1)
  {
  }

  // `consumeBatch`

  /** Nothing is locked, written or refused yet. */
  predicate AtBatch(tx: Tx) {
    tx.writes == map[] && tx.exhausted == [] && !tx.recorded && tx.phase == AfterLocks(tx.call, tx.batch, [], 0)
  }

  lemma BatchStarts(rows: map<Row, int>, tx: Tx)
    requires AtBatch(tx)
    ensures Locking(rows, tx, 0)
  {
    assert tx.batch[..0] == [];
    assert C.Seen(rows, tx.writes) == rows;
  }

  lemma ChargesStart(rows: map<Row, int>, tx: Tx) returns (keys: set<Row>)
    requires Locking(rows, tx, |tx.batch|) && tx.exhausted == []
    ensures Charging(rows, tx, 0, keys) && keys == C.Seen(rows, tx.writes).Keys
  {
    keys := C.Seen(rows, tx.writes).Keys;
    C.PreparedCovers(tx.batch, rows, tx.writes);
  }

  lemma Locked(rows: map<Row, int>, tx: Tx)
    requires Locking(rows, tx, |tx.batch|)
    ensures tx.exhausted == ExhaustedBy(tx.batch, rows)
  {
    assert tx.batch[..|tx.batch|] == tx.batch;
  }

  /** What the loops of `consumeBatch` come to. */
  predicate BatchDone(rows: map<Row, int>, tx: Tx) {
    var exhausted := ExhaustedBy(tx.batch, rows);
    if exhausted != [] then tx.phase == End(Refusal(tx.call, exhausted))
    else rows + tx.writes == Charge(tx.batch, rows) && tx.phase == AfterUpdates(tx.call, tx.batch, |tx.batch|)
  }

  lemma RefusalIsDone(rows: map<Row, int>, tx: Tx)
    requires Locking(rows, tx, |tx.batch|) && tx.exhausted != []
    ensures BatchDone(rows, tx)
  {
    Locked(rows, tx);
  }

  lemma ChargesAreDone(rows: map<Row, int>, before: Tx, tx: Tx)
    requires Locking(rows, before, |before.batch|) && before.exhausted == [] && before.batch == tx.batch
    requires rows + tx.writes == Charge(tx.batch, rows) && tx.phase == AfterUpdates(tx.call, tx.batch, |tx.batch|)
    ensures BatchDone(rows, tx)
  {
    Locked(rows, before);
  }

  /** The batch is charged once its rows are locked and nothing is refused. */
  lemma ChargesGo(rows: map<Row, int>, receipts: map<Row, string>, tx: Tx) returns (tx': Tx, n: nat)
    requires Locking(rows, tx, |tx.batch|) && tx.exhausted == []
    ensures Goes(rows, receipts, tx, tx', n) && SameCall(tx, tx') && BatchDone(rows, tx')
  {
    var keys := ChargesStart(rows, tx);
    tx', n := ChargeRest(rows, tx, 0), |tx.batch|;
    ChargeRestCharges(rows, tx, 0, keys);
    ChargeRestGoes(rows, receipts, tx, 0);
    C.AllCharged(tx.batch, rows, tx.writes, tx'.writes);
    ChargesAreDone(rows, tx, tx');
  }

  lemma FinishesBatch(rows: map<Row, int>, receipts: map<Row, string>, tx: Tx) returns (tx': Tx, n: nat)
    requires Locking(rows, tx, |tx.batch|)
    ensures Goes(rows, receipts, tx, tx', n) && SameCall(tx, tx') && BatchDone(rows, tx')
  {
    if tx.exhausted == [] {
      tx', n := ChargesGo(rows, receipts, tx);
    } else {
      RefusalIsDone(rows, tx);
      tx', n := tx, 0;
    }
  }

  lemma LocksGo(rows: map<Row, int>, receipts: map<Row, string>, tx: Tx) returns (tx': Tx, n: nat)
    requires AtBatch(tx)
    ensures Goes(rows, receipts, tx, tx', n) && SameCall(tx, tx') && Locking(rows, tx', |tx'.batch|)
  {
    BatchStarts(rows, tx);
    tx', n := LockAll(rows, receipts, tx);
  }

  /** The loops of `consumeBatch`: what the batch is refused for, or every entry charged. */
  lemma BatchGoes(rows: map<Row, int>, receipts: map<Row, string>, tx: Tx) returns (tx': Tx, n: nat)
    requires AtBatch(tx)
    ensures Goes(rows, receipts, tx, tx', n) && SameCall(tx, tx') && BatchDone(rows, tx')
  {
    var locked, m := LocksGo(rows, receipts, tx);
    tx', n := FinishesBatch(rows, receipts, locked);
    GoesOn(rows, receipts, tx, locked, tx', m, n);
    n := m + n;
  }

  // Whole calls

  /** What `PostgresClient` leaves in the tables and answers. */
  function Answer(before: Order, s: State, call: Call): (State, Outcome) {
    var batch := Sort(before, EntriesOf(call));
    match call
    case Consume(_, e) => if SwitchedOff(e) then (s, Denial(e, 0)) else ApplyConsume(s, e)
    case ConsumeAll(_, _) => ApplyAll(s, batch)
    case ConsumeAllOnce(_, _, receipt, fingerprint) =>
      if DistinctRows(batch) then ApplyOnce(s, batch, receipt, fingerprint) else (s, DuplicateRows)
  }

  /** A transaction one statement before its end, and the tables and answer that this statement leaves. */
  predicate Ends(rows: map<Row, int>, receipts: map<Row, string>, tx: Tx, answer: (State, Outcome)) {
    && Running(tx.phase) && Step(rows, receipts, tx).phase == Done(answer.1)
    && State(RowsAfter(rows, tx), ReceiptsAfter(receipts, tx)) == answer.0
  }

  /** Some number of statements, of which only the last may commit, end the transaction with this answer. */
  ghost predicate Finishes(rows: map<Row, int>, receipts: map<Row, string>, tx: Tx, answer: (State, Outcome)) {
    exists tx': Tx, n: nat :: Goes(rows, receipts, tx, tx', n) && Ends(rows, receipts, tx', answer)
  }

  lemma FinishesBy(rows: map<Row, int>, receipts: map<Row, string>, tx: Tx, tx': Tx, n: nat, answer: (State, Outcome))
    ensures Goes(rows, receipts, tx, tx', n) && Ends(rows, receipts, tx', answer) ==> Finishes(rows, receipts, tx, answer)
  {
  }

  lemma GoesAndFinishes(rows: map<Row, int>, receipts: map<Row, string>, a: Tx, b: Tx, m: nat, answer: (State, Outcome))
    ensures Goes(rows, receipts, a, b, m) && Finishes(rows, receipts, b, answer) ==> Finishes(rows, receipts, a, answer)
  {
    if Finishes(rows, receipts, b, answer) {
      var tx': Tx, n: nat :| Goes(rows, receipts, b, tx', n) && Ends(rows, receipts, tx', answer);
      GoesOn(rows, receipts, a, b, tx', m, n);
      FinishesBy(rows, receipts, a, tx', m + n, answer);
    }
  }

  /** A call that needs no statement. */
  predicate AtOnce(before: Order, call: Call) {
    var batch := Sort(before, EntriesOf(call));
    match call
    case Consume(_, e) => SwitchedOff(e)
    case ConsumeAll(_, _) => !DistinctRows(batch) || exists e <- batch :: SwitchedOff(e)
    case ConsumeAllOnce(_, _, _, _) => !DistinctRows(batch)
  }

  lemma AnswersAtOnce(c: Config, s: State, call: Call)
    requires AtOnce(c.before, call)
    ensures Start(c, call).phase == Done(Answer(c.before, s, call).1) && Answer(c.before, s, call).0 == s
  {
    AdmittedIffAllFit(Sort(c.before, EntriesOf(call)), s.used);
  }

  lemma ConsumeGoes(c: Config, s: State, call: Call)
    requires call.Consume? && !SwitchedOff(call.entry) && Get(s.used, call.entry.row) >= 0
    ensures Finishes(s.used, s.receipts, Start(c, call), Answer(c.before, s, call))
  {
    var tx := Start(c, call);
    var tx' := Step(s.used, s.receipts, tx);
    OneMore(s.used, s.receipts, tx, tx', tx', 0);
    UpsertEnds(c, s, call, tx');
    FinishesBy(s.used, s.receipts, tx, tx', 1, Answer(c.before, s, call));
  }

  lemma UpsertEnds(c: Config, s: State, call: Call, tx': Tx)
    requires call.Consume? && !SwitchedOff(call.entry) && Get(s.used, call.entry.row) >= 0
    requires tx' == Step(s.used, s.receipts, Start(c, call))
    ensures Ends(s.used, s.receipts, tx', Answer(c.before, s, call))
  {
  }

  lemma AllStarts(c: Config, call: Call)
    requires call.ConsumeAll? && !AtOnce(c.before, call)
    ensures AtBatch(Start(c, call)) && DistinctRows(Start(c, call).batch)
  {
  }

  lemma AllEnds(s: State, tx: Tx)
    requires tx.call.ConsumeAll? && BatchDone(s.used, tx) && DistinctRows(tx.batch) && !tx.recorded
    ensures Ends(s.used, s.receipts, tx, ApplyAll(s, tx.batch))
  {
  }

  lemma AllGoes(c: Config, s: State, call: Call)
    requires call.ConsumeAll? && !AtOnce(c.before, call)
    ensures Finishes(s.used, s.receipts, Start(c, call), Answer(c.before, s, call))
  {
    var tx := Start(c, call);
    AllStarts(c, call);
    var tx', n := BatchGoes(s.used, s.receipts, tx);
    AllEnds(s, tx');
    FinishesBy(s.used, s.receipts, tx, tx', n, ApplyAll(s, tx.batch));
  }

  /** The receipt is looked up under the advisory lock. */
  lemma OnceStarts(c: Config, s: State, call: Call) returns (tx': Tx, n: nat)
    requires call.ConsumeAllOnce? && !AtOnce(c.before, call)
    ensures Goes(s.used, s.receipts, Start(c, call), tx', n) && SameCall(tx', Start(c, call))
    ensures if call.receipt in s.receipts
            then tx'.phase == End(if s.receipts[call.receipt] == call.fingerprint then Replayed else Conflict)
            else AtBatch(tx')
  {
    var tx := Start(c, call);
    var locked := Step(s.used, s.receipts, tx);
    tx', n := Step(s.used, s.receipts, locked), 2;
    TwoMore(s.used, s.receipts, tx, locked, tx', tx', 0);
  }

  /** Behind the charged batch, the receipt is written. */
  lemma RecordGoes(s: State, tx: Tx, batch: seq<Entry>) returns (tx': Tx, n: nat)
    requires tx.call.ConsumeAllOnce? && tx.phase == WriteReceipt && tx.call.receipt !in s.receipts
    requires s.used + tx.writes == Charge(batch, s.used)
    ensures Goes(s.used, s.receipts, tx, tx', n)
    ensures Ends(s.used, s.receipts, tx',
                 (State(Charge(batch, s.used), s.receipts[tx.call.receipt := tx.call.fingerprint]), Consumed))
  {
    tx', n := Step(s.used, s.receipts, tx), 1;
    OneMore(s.used, s.receipts, tx, tx', tx', 0);
  }

  lemma RefusalEnds(s: State, tx: Tx)
    requires tx.call.ConsumeAllOnce? && BatchDone(s.used, tx) && DistinctRows(tx.batch) && !tx.recorded
    requires ExhaustedBy(tx.batch, s.used) != [] && tx.call.receipt !in s.receipts
    ensures Ends(s.used, s.receipts, tx, ApplyOnce(s, tx.batch, tx.call.receipt, tx.call.fingerprint))
  {
  }

  lemma FreshGoes(s: State, tx: Tx)
    requires AtBatch(tx) && tx.call.ConsumeAllOnce? && tx.call.receipt !in s.receipts && DistinctRows(tx.batch)
    ensures Finishes(s.used, s.receipts, tx, ApplyOnce(s, tx.batch, tx.call.receipt, tx.call.fingerprint))
  {
    var answer := ApplyOnce(s, tx.batch, tx.call.receipt, tx.call.fingerprint);
    var done, m := BatchGoes(s.used, s.receipts, tx);
    if ExhaustedBy(tx.batch, s.used) == [] {
      var tx', n := RecordGoes(s, done, tx.batch);
      FinishesBy(s.used, s.receipts, done, tx', n, answer);
    } else {
      RefusalEnds(s, done);
      FinishesBy(s.used, s.receipts, done, done, 0, answer);
    }
    GoesAndFinishes(s.used, s.receipts, tx, done, m, answer);
  }

  lemma KnownEnds(s: State, tx: Tx)
    requires tx.call.ConsumeAllOnce? && tx.call.receipt in s.receipts && !tx.recorded
    requires tx.phase == End(if s.receipts[tx.call.receipt] == tx.call.fingerprint then Replayed else Conflict)
    ensures Ends(s.used, s.receipts, tx, ApplyOnce(s, tx.batch, tx.call.receipt, tx.call.fingerprint))
  {
  }

  lemma OnceAnswer(c: Config, s: State, call: Call)
    requires call.ConsumeAllOnce? && !AtOnce(c.before, call)
    ensures var tx := Start(c, call);
            && DistinctRows(tx.batch) && !tx.recorded && tx.call == call
            && Answer(c.before, s, call) == ApplyOnce(s, tx.batch, call.receipt, call.fingerprint)
  {
  }

  /** The receipt is looked up: the call ends, or its batch begins. */
  predicate Looked(s: State, tx: Tx) {
    && tx.call.ConsumeAllOnce? && DistinctRows(tx.batch) && !tx.recorded
    && (if tx.call.receipt in s.receipts
        then tx.phase == End(if s.receipts[tx.call.receipt] == tx.call.fingerprint then Replayed else Conflict)
        else AtBatch(tx))
  }

  lemma LookedGoes(s: State, tx: Tx)
    requires Looked(s, tx)
    ensures Finishes(s.used, s.receipts, tx, ApplyOnce(s, tx.batch, tx.call.receipt, tx.call.fingerprint))
  {
    if tx.call.receipt in s.receipts {
      KnownEnds(s, tx);
      FinishesBy(s.used, s.receipts, tx, tx, 0, ApplyOnce(s, tx.batch, tx.call.receipt, tx.call.fingerprint));
    } else {
      FreshGoes(s, tx);
    }
  }

  lemma OnceLooks(c: Config, s: State, call: Call) returns (tx': Tx, n: nat)
    requires call.ConsumeAllOnce? && !AtOnce(c.before, call)
    ensures Goes(s.used, s.receipts, Start(c, call), tx', n) && Looked(s, tx')
    ensures ApplyOnce(s, tx'.batch, tx'.call.receipt, tx'.call.fingerprint) == Answer(c.before, s, call)
  {
    tx', n := OnceStarts(c, s, call);
    OnceAnswer(c, s, call);
  }

  lemma OnceGoes(c: Config, s: State, call: Call)
    requires call.ConsumeAllOnce? && !AtOnce(c.before, call)
    ensures Finishes(s.used, s.receipts, Start(c, call), Answer(c.before, s, call))
  {
    var looked, m := OnceLooks(c, s, call);
    LookedGoes(s, looked);
    GoesAndFinishes(s.used, s.receipts, Start(c, call), looked, m, Answer(c.before, s, call));
  }

  lemma CallGoes(c: Config, s: State, call: Call)
    requires !AtOnce(c.before, call) && forall row <- s.used :: s.used[row] >= 0
    ensures Finishes(s.used, s.receipts, Start(c, call), Answer(c.before, s, call))
  {
    match call
    case Consume(_, e) => ConsumeGoes(c, s, call);
    case ConsumeAll(_, _) => AllGoes(c, s, call);
    case ConsumeAllOnce(_, _, _, _) => OnceGoes(c, s, call);
  }

  // In the system

  /** Nobody else has a lock or an uncommitted receipt. */
  ghost predicate AloneAt(s: Sys, t: nat) {
    && t < |s.txs|
    && forall u | 0 <= u < |s.txs| && u != t :: s.txs[u].held == {} && !s.txs[u].advisory && !s.txs[u].recorded
  }

  function Acts(t: nat, n: nat): (actions: seq<Action>)
    ensures |actions| == n && forall a <- actions :: a == Act(t)
  {
    if n == 0 then [] else [Act(t)] + Acts(t, n - 1)
  }

  lemma AloneCanStep(c: Config, s: Sys, t: nat)
    requires AloneAt(s, t) && Running(s.txs[t].phase)
    ensures Enabled(c, s, Act(t))
  {
  }

  lemma {:induction false} GoesInSystem(c: Config, s: Sys, t: nat, tx': Tx, n: nat)
    requires AloneAt(s, t) && Goes(s.rows, s.receipts, s.txs[t], tx', n)
    ensures Run(c, s, Acts(t, n)) && EndOf(c, s, Acts(t, n)) == s.(txs := s.txs[t := tx'])
    decreases n
  {
    if n > 0 {
      AloneCanStep(c, s, t);
      var s' := After(c, s, Act(t));
      GoesInSystem(c, s', t, tx', n - 1);
      assert Acts(t, n)[1..] == Acts(t, n - 1);
      assert s'.txs[t := tx'] == s.txs[t := tx'];
    }
  }

  lemma EndsInSystem(c: Config, s: Sys, t: nat, answer: (State, Outcome))
    requires AloneAt(s, t) && Ends(s.rows, s.receipts, s.txs[t], answer)
    ensures Run(c, s, [Act(t)])
    ensures var s' := EndOf(c, s, [Act(t)]);
            t < |s'.txs| && State(s'.rows, s'.receipts) == answer.0 && s'.txs[t].phase == Done(answer.1)
  {
    AloneCanStep(c, s, t);
    assert [Act(t)][1..] == [];
  }

  lemma {:induction false} RunJoins(c: Config, s: Sys, first: seq<Action>, then_: seq<Action>)
    requires Run(c, s, first) && Run(c, EndOf(c, s, first), then_)
    ensures Run(c, s, first + then_) && EndOf(c, s, first + then_) == EndOf(c, EndOf(c, s, first), then_)
    decreases |first|
  {
    if first == [] {
      assert first + then_ == then_;
    } else {
      RunJoins(c, After(c, s, first[0]), first[1..], then_);
      HeadAndTail(first, then_);
    }
  }

  /** Nobody has a lock or an uncommitted receipt. */
  ghost predicate Quiet(s: Sys) {
    forall tx <- s.txs :: tx.held == {} && !tx.advisory && !tx.recorded
  }

  /** The tables and the answer after a transaction that runs alone. */
  ghost predicate Leaves(s: Sys, t: nat, answer: (State, Outcome)) {
    t < |s.txs| && State(s.rows, s.receipts) == answer.0 && s.txs[t].phase == Done(answer.1)
  }

  lemma StatementsLeave(c: Config, s: Sys, t: nat, answer: (State, Outcome)) returns (n: nat)
    requires AloneAt(s, t) && Finishes(s.rows, s.receipts, s.txs[t], answer)
    ensures Run(c, s, Acts(t, n) + [Act(t)]) && Leaves(EndOf(c, s, Acts(t, n) + [Act(t)]), t, answer)
  {
    var tx': Tx, m: nat :| Goes(s.rows, s.receipts, s.txs[t], tx', m) && Ends(s.rows, s.receipts, tx', answer);
    n := m;
    GoesInSystem(c, s, t, tx', n);
    EndsInSystem(c, s.(txs := s.txs[t := tx']), t, answer);
    RunJoins(c, s, Acts(t, n), [Act(t)]);
  }

  lemma AloneLeaves(c: Config, s: Sys, call: Call) returns (actions: seq<Action>)
    requires Quiet(s) && Enabled(c, s, Begin(call)) && forall row <- s.rows :: s.rows[row] >= 0
    ensures OnlyStatements(actions) && Run(c, After(c, s, Begin(call)), actions)
    ensures Leaves(EndOf(c, After(c, s, Begin(call)), actions), |s.txs|, Answer(c.before, State(s.rows, s.receipts), call))
  {
    var s', t := After(c, s, Begin(call)), |s.txs|;
    if AtOnce(c.before, call) {
      AnswersAtOnce(c, State(s.rows, s.receipts), call);
      actions := [];
    } else {
      CallGoes(c, State(s.rows, s.receipts), call);
      var n := StatementsLeave(c, s', t, Answer(c.before, State(s.rows, s.receipts), call));
      actions := Acts(t, n) + [Act(t)];
    }
  }

  lemma IdleIsQuiet(c: Config, s: Sys)
    requires Inv(c, s) && forall tx <- s.txs :: !Running(tx.phase)
    ensures Quiet(s)
  {
    forall t | 0 <= t < |s.txs|
      ensures s.txs[t].held == {} && !s.txs[t].advisory && !s.txs[t].recorded
    {
      assert TxOk(c, s.rows, s.receipts, s.horizon, s.txs[t]);
    }
  }

  /**
   * Whatever ran before, a call that begins when no other call is open, and that nobody interrupts, runs
   * to its end; it leaves the tables and gives the answer that the methods of `PostgresClient` state.
   */
  lemma AloneIsTheClient(c: Config, run: seq<Action>, call: Call) returns (actions: seq<Action>)
    requires StrictTotal(c.before) && Run(c, INIT, run) && Enabled(c, EndOf(c, INIT, run), Begin(call))
    requires forall tx <- EndOf(c, INIT, run).txs :: !Running(tx.phase)
    ensures var s := EndOf(c, INIT, run);
            && OnlyStatements(actions) && Run(c, After(c, s, Begin(call)), actions)
            && Leaves(EndOf(c, After(c, s, Begin(call)), actions), |s.txs|,
                      Answer(c.before, State(s.rows, s.receipts), call))
  {
    var s := EndOf(c, INIT, run);
    InitIsOk(c);
    RunKeepsInv(c, INIT, run);
    IdleIsQuiet(c, s);
    actions := AloneLeaves(c, s, call);
  }
}
