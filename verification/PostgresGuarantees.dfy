/** What callers of the durable store can rely on, whatever the interleaving. */
module PostgresGuarantees {
  import opened Text
  import Calendar
  import opened BurstBound
  import opened CounterRows
  import opened Ledger
  import opened LedgerHistory
  import opened Retention
  import opened SortedBatch
  import opened Postgres
  import opened PostgresInvariant
  import opened PostgresRefinement
  import opened PostgresHistory

  ghost predicate CallsWellFormed(s: Sys) {
    forall t | 0 <= t < |s.txs| :: WellFormed(s.txs[t].call)
  }

  lemma ActionKeepsWellFormed(c: Config, s: Sys, a: Action)
    requires Enabled(c, s, a) && CallsWellFormed(s)
    ensures CallsWellFormed(After(c, s, a)) && AllWellFormed(EventsAt(c, s, a))
  {
    if a.Act? {
      StepKeepsStatics(s.rows, s.receipts, s.txs[a.t]);
    }
  }

  lemma {:induction false} RunKeepsWellFormed(c: Config, s: Sys, actions: seq<Action>)
    requires Run(c, s, actions) && CallsWellFormed(s)
    ensures AllWellFormed(History(c, s, actions))
    decreases |actions|
  {
    if actions != [] {
      ActionKeepsWellFormed(c, s, actions[0]);
      RunKeepsWellFormed(c, After(c, s, actions[0]), actions[1..]);
    }
  }

  /**
   * Conservation and ceiling: in every reachable state a row of a day no sweep has touched holds
   * exactly the units admitted to it, and no more than the limit of some entry admitted for it.
   */
  lemma RowsAreConservedAndCapped(c: Config, actions: seq<Action>, row: Row)
    requires StrictTotal(c.before) && Run(c, INIT, actions)
    requires !Less(row.day, EndOf(c, INIT, actions).horizon)
    ensures var h, use := History(c, INIT, actions), Get(EndOf(c, INIT, actions).rows, row);
            && use == TotalCharged(h, row)
            && (use == 0 || exists e <- h :: AdmittedUnder(e, row, use))
  {
    var h, s := History(c, INIT, actions), EndOf(c, INIT, actions);
    EveryRunIsSequential(c, actions);
    assert AgreeAt(Replay(EMPTY, h), s.rows, s.receipts, row);
    UseIsConserved(EMPTY, h, row);
    RunKeepsWellFormed(c, INIT, actions);
    UseStaysUnderALimit(EMPTY, h, row);
  }

  lemma {:induction false} HorizonGrows(c: Config, s: Sys, actions: seq<Action>, day: DayText)
    requires Run(c, s, actions) && Less(day, s.horizon)
    ensures Less(day, EndOf(c, s, actions).horizon)
    decreases |actions|
  {
    if actions != [] {
      if actions[0].Sweep? && Less(s.horizon, actions[0].cutoff) {
        LessTransitive(day, s.horizon, actions[0].cutoff);
      }
      HorizonGrows(c, After(c, s, actions[0]), actions[1..], day);
    }
  }

  /** A committed row never decreases while its day is kept. */
  lemma RowsNeverDecrease(c: Config, first: seq<Action>, then_: seq<Action>, row: Row)
    requires StrictTotal(c.before) && Run(c, INIT, first + then_) && Run(c, INIT, first)
    requires !Less(row.day, EndOf(c, INIT, first + then_).horizon)
    ensures Get(EndOf(c, INIT, first).rows, row) <= Get(EndOf(c, INIT, first + then_).rows, row)
  {
    RunSplits(c, INIT, first, then_);
    var mid, end := EndOf(c, INIT, first), EndOf(c, INIT, first + then_);
    var g, h := History(c, INIT, first), History(c, mid, then_);
    if Less(row.day, mid.horizon) {
      HorizonGrows(c, mid, then_, row.day);
    }
    EveryRunIsSequential(c, first);
    EveryRunIsSequential(c, first + then_);
    assert AgreeAt(Replay(EMPTY, g), mid.rows, mid.receipts, row);
    assert AgreeAt(Replay(EMPTY, g + h), end.rows, end.receipts, row);
    ReplaysSplit(EMPTY, g, h);
    RunKeepsWellFormed(c, INIT, first + then_);
    assert forall e <- h :: e in g + h;
    UseNeverDecreases(Replay(EMPTY, g), h, row);
  }

  /**
   * Exactly once: across any run at most one attempt commits for a receipt, and the receipt is in
   * the table exactly when one has.
   */
  lemma AttemptsCommitAtMostOnce(c: Config, actions: seq<Action>, receipt: Row)
    requires StrictTotal(c.before) && Run(c, INIT, actions)
    ensures var h, s := History(c, INIT, actions), EndOf(c, INIT, actions);
            && SpentCount(h, receipt) <= 1
            && (!Less(receipt.day, s.horizon) ==> (receipt in s.receipts <==> SpentCount(h, receipt) == 1))
  {
    var h, s := History(c, INIT, actions), EndOf(c, INIT, actions);
    EveryRunIsSequential(c, actions);
    ChargedAtMostOnce(EMPTY, h, receipt);
    if !Less(receipt.day, s.horizon) {
      assert AgreeAt(Replay(EMPTY, h), s.rows, s.receipts, receipt);
    }
  }

  /** A retry after a committed attempt replays or conflicts by its fingerprint, and never fails on the receipt's key. */
  lemma RetriesReplayOrConflict(c: Config, actions: seq<Action>, i: nat, j: nat)
    requires StrictTotal(c.before) && Run(c, INIT, actions) && i < j < |History(c, INIT, actions)|
    requires var h := History(c, INIT, actions);
             && h[i].call.ConsumeAllOnce? && h[i].outcome.Consumed?
             && h[j].call.ConsumeAllOnce? && h[j].call.receipt == h[i].call.receipt
    ensures var h := History(c, INIT, actions);
            h[j].outcome == if h[j].call.fingerprint == h[i].call.fingerprint then Replayed else Conflict
  {
    EveryRunIsSequential(c, actions);
    RetriesNeverCharge(EMPTY, History(c, INIT, actions), i, j);
  }

  /** The burst bound holds for the calls of any run that were made at known moments. */
  lemma DurableBurstIsAtMostTwice(c: Config, actions: seq<Action>, uses: seq<Use>, key: string, span: Window, limit: int, t: Calendar.Time)
    requires StrictTotal(c.before) && Run(c, INIT, actions) && Timed(uses, History(c, INIT, actions))
    requires '@' !in key && limit >= 0 && AllPlain(uses, key, span, limit)
    ensures AdmittedBetween(uses, History(c, INIT, actions), key, span, t, t + WindowMs(span)) <= 2 * limit
  {
    EveryRunIsSequential(c, actions);
    BurstIsAtMostTwice(uses, History(c, INIT, actions), key, span, limit, t);
  }

  // Where the two stores would part

  /**
   * The durable store refuses a switched-off surface without looking at the row. The sequential
   * store refuses it too exactly when the request would exceed the limit, which one unit always does.
   */
  lemma SwitchedOffAgreesIff(c: Config, l: State, day: DayText, e: Entry)
    requires SwitchedOff(e)
    ensures var durable := Decision(Start(c, Consume(day, e)));
            && durable.Some?
            && (SameAnswer(Apply(l, Consume(day, e)).1, durable.value) <==> Get(l.used, e.row) + e.amount > e.limit)
    ensures Get(l.used, e.row) >= 0 && e.amount >= 1 ==> Get(l.used, e.row) + e.amount > e.limit
  {
  }

  /** So nothing asked of a fresh row whose limit is nothing is admitted by the one and denied by the other. */
  lemma ZeroUnitsDiffer(c: Config, day: DayText, e: Entry)
    requires e.limit == 0 && e.amount == 0
    ensures Apply(EMPTY, Consume(day, e)).1 == Counted(true, 0, 0, e.resetAt)
    ensures Decision(Start(c, Consume(day, e))) == Some(Counted(false, 0, 0, e.resetAt))
  {
  }

  /**
   * For a batch with shared rows the durable store reports the error before it looks at the receipt;
   * the sequential store does the same exactly when there is no receipt.
   */
  lemma SharedRowsAgreeIff(c: Config, l: State, call: Call)
    requires StrictTotal(c.before) && call.ConsumeAllOnce? && !DistinctRows(call.entries)
    ensures Start(c, call).phase == Done(DuplicateRows)
    ensures Apply(l, call).1 == DuplicateRows <==> call.receipt !in l.receipts
    ensures Apply(l, call).0 == l
  {
    SortKeepsDistinctness(c.before, call.entries);
  }
}
