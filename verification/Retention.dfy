/** Retention is invisible: what a sweep deletes, no later call can tell. */
module Retention {
  import opened Text
  import opened Calendar
  import opened CounterRows
  import opened Ledger

  /** Two states that hold the same from a day on. */
  ghost predicate AgreeFrom(cutoff: DayText, l: State, m: State) {
    forall row: Row | !Less(row.day, cutoff) :: SameAt(l, m, row)
  }

  predicate SameAt(l: State, m: State, row: Row) {
    && Get(l.used, row) == Get(m.used, row)
    && (row in l.receipts <==> row in m.receipts)
    && (row in l.receipts && row in m.receipts ==> l.receipts[row] == m.receipts[row])
  }

  predicate RowsFrom(cutoff: DayText, call: Call) {
    && (forall e <- EntriesOf(call) :: !Less(e.row.day, cutoff))
    && (call.ConsumeAllOnce? ==> !Less(call.receipt.day, cutoff))
  }

  lemma {:induction false} BatchCannotTell(cutoff: DayText, l: State, m: State, batch: seq<Entry>)
    requires AgreeFrom(cutoff, l, m) && forall e <- batch :: !Less(e.row.day, cutoff)
    ensures ExhaustedBy(batch, l.used) == ExhaustedBy(batch, m.used)
  {
    if batch != [] {
      BatchCannotTell(cutoff, l, m, batch[..|batch| - 1]);
      assert SameAt(l, m, batch[|batch| - 1].row);
    }
  }

  lemma SameCharges(l: State, m: State, batch: seq<Entry>, row: Row)
    requires Get(l.used, row) == Get(m.used, row)
    ensures Get(Charge(batch, l.used), row) == Get(Charge(batch, m.used), row)
  {
    ChargeAdds(batch, l.used, row);
    ChargeAdds(batch, m.used, row);
  }

  /** One call gives the same answer in both states and leaves them in agreement. */
  lemma CallCannotTell(cutoff: DayText, l: State, m: State, call: Call)
    requires AgreeFrom(cutoff, l, m) && RowsFrom(cutoff, call)
    ensures Apply(l, call).1 == Apply(m, call).1
    ensures AgreeFrom(cutoff, Apply(l, call).0, Apply(m, call).0)
  {
    var batch := EntriesOf(call);
    BatchCannotTell(cutoff, l, m, batch);
    if call.Consume? {
      assert SameAt(l, m, batch[0].row);
    }
    if call.ConsumeAllOnce? {
      assert SameAt(l, m, call.receipt);
    }
    forall row: Row | !Less(row.day, cutoff)
      ensures SameAt(Apply(l, call).0, Apply(m, call).0, row)
    {
      assert SameAt(l, m, row);
      SameCharges(l, m, batch, row);
    }
  }

  /** What callers do with a store. */
  datatype Use =
    | UseConsume(request: CounterRequest, now: Time)
    | UseAll(requests: seq<CounterRequest>, now: Time)
    | UseOnce(requests: seq<CounterRequest>, attempt: Attempt, now: Time)
    | UsePeek(key: string, now: Time)

  datatype Result = Told(outcome: Outcome) | Peeked(units: int)

  function CallOf(use: Use): Call
    requires !use.UsePeek?
  {
    match use
    case UseConsume(request, now) => ConsumeCall(request, now)
    case UseAll(requests, now) => AllCall(requests, now)
    case UseOnce(requests, attempt, now) => OnceCall(requests, attempt, now)
  }

  /** What the callers are told, one use after the other. */
  function Results(l: State, uses: seq<Use>): seq<Result>
    decreases |uses|
  {
    if uses == [] then []
    else if uses[0].UsePeek? then [Peeked(Peek(l, uses[0].key, uses[0].now))] + Results(l, uses[1..])
    else [Told(Apply(l, CallOf(uses[0])).1)] + Results(Apply(l, CallOf(uses[0])).0, uses[1..])
  }

  lemma CallRows(use: Use)
    requires !use.UsePeek?
    ensures forall e <- EntriesOf(CallOf(use)) :: e.row.day == DayKey(use.now)
    ensures CallOf(use).ConsumeAllOnce? ==> CallOf(use).receipt.day == DayKey(use.now)
  {
  }

  lemma {:induction false} UsesCannotTell(cutoff: DayText, l: State, m: State, uses: seq<Use>)
    requires AgreeFrom(cutoff, l, m)
    requires forall use <- uses :: !Less(DayKey(use.now), cutoff)
    ensures Results(l, uses) == Results(m, uses)
    decreases |uses|
  {
    if uses != [] {
      var use := uses[0];
      assert use in uses;
      if use.UsePeek? {
        assert SameAt(l, m, Row(DayKey(use.now), use.key));
        UsesCannotTell(cutoff, l, m, uses[1..]);
      } else {
        CallRows(use);
        CallCannotTell(cutoff, l, m, CallOf(use));
        UsesCannotTell(cutoff, Apply(l, CallOf(use)).0, Apply(m, CallOf(use)).0, uses[1..]);
      }
    }
  }

  /**
   * After a sweep at `now`, every sequence of calls and peeks at moments no earlier than two days
   * before `now` gives the results it would have given without the sweep.
   */
  lemma SweepIsInvisible(l: State, now: Time, uses: seq<Use>)
    requires FIRST_DAY + RETENTION_DAYS <= DayOf(now)
    requires forall use <- uses :: now - RETENTION_DAYS * MS_PER_DAY <= use.now
    ensures Results(Prune(l, RetentionCutoff(now)), uses) == Results(l, uses)
  {
    var cutoff := RetentionCutoff(now);
    forall use <- uses
      ensures !Less(DayKey(use.now), cutoff)
    {
      DayKeyOrder(use.now, now - RETENTION_DAYS * MS_PER_DAY);
    }
    UsesCannotTell(cutoff, Prune(l, cutoff), l, uses);
  }
}
