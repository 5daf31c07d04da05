/** Histories of calls with their answers, and what it means that a sequential store explains them. */
module LedgerHistory {
  import opened CounterRows
  import opened Ledger

  /** The moment a call takes effect in the sequential order: whose call, which call, what answer. */
  datatype Event = Event(t: nat, call: Call, outcome: Outcome)

  /**
   * The same answer. The use reported with a denial is left open, because the durable store reads
   * it in a later statement, and the exhausted counters may come in another order.
   */
  predicate SameAnswer(a: Outcome, b: Outcome) {
    match (a, b)
    case (Counted(allowed, used, limit, resetAt), Counted(allowed', used', limit', resetAt')) =>
      allowed == allowed' && limit == limit' && resetAt == resetAt' && (allowed ==> used == used')
    case (Refused(exhausted), Refused(exhausted')) => multiset(exhausted) == multiset(exhausted')
    case _ => a == b
  }

  lemma SameAnswerIsTransitive(a: Outcome, b: Outcome, c: Outcome)
    ensures SameAnswer(a, a)
    ensures SameAnswer(a, b) && SameAnswer(b, c) ==> SameAnswer(a, c)
  {
  }

  /** The history, replayed one call at a time from `l`, gives each call the answer it got. */
  predicate Replays(l: State, h: seq<Event>)
    decreases |h|
  {
    h == [] || (SameAnswer(Apply(l, h[0].call).1, h[0].outcome) && Replays(Apply(l, h[0].call).0, h[1..]))
  }

  /** The sequential state after the calls of a history. */
  function Replay(l: State, h: seq<Event>): State
    decreases |h|
  {
    if h == [] then l else Replay(Apply(l, h[0].call).0, h[1..])
  }

  /** The events of one caller. */
  function EventsOf(h: seq<Event>, t: nat): seq<Event> {
    if h == [] then [] else (if h[0].t == t then [h[0]] else []) + EventsOf(h[1..], t)
  }

  lemma HeadAndTail<T>(first: seq<T>, then_: seq<T>)
    requires first != []
    ensures (first + then_)[0] == first[0] && (first + then_)[1..] == first[1..] + then_
  {
  }

  lemma Reassociate<T>(a: seq<T>, b: seq<T>, c: seq<T>)
    ensures a + b + c == a + (b + c)
  {
  }

  lemma {:induction false} EventsOfConcat(g: seq<Event>, h: seq<Event>, t: nat)
    ensures EventsOf(g + h, t) == EventsOf(g, t) + EventsOf(h, t)
  {
    if g == [] {
      assert g + h == h;
    } else {
      EventsOfConcat(g[1..], h, t);
      FirstEvent(g, h, t);
      var first := if g[0].t == t then [g[0]] else [];
      Reassociate(first, EventsOf(g[1..], t), EventsOf(h, t));
    }
  }

  lemma FirstEvent(g: seq<Event>, h: seq<Event>, t: nat)
    requires g != []
    ensures EventsOf(g + h, t) == (if g[0].t == t then [g[0]] else []) + EventsOf(g[1..] + h, t)
    ensures EventsOf(g, t) == (if g[0].t == t then [g[0]] else []) + EventsOf(g[1..], t)
  {
    HeadAndTail(g, h);
  }

  lemma {:induction false} ReplaysSplit(l: State, g: seq<Event>, h: seq<Event>)
    ensures Replays(l, g + h) <==> Replays(l, g) && Replays(Replay(l, g), h)
    ensures Replay(l, g + h) == Replay(Replay(l, g), h)
    decreases |g|
  {
    if g == [] {
      assert g + h == h;
    } else {
      ReplaysSplit(Apply(l, g[0].call).0, g[1..], h);
      assert (g + h)[1..] == g[1..] + h;
    }
  }

  // What one call changes

  /** The answer says the call was charged. */
  predicate Admitted(outcome: Outcome) {
    match outcome
    case Counted(allowed, _, _, _) => allowed
    case Spent(admitted) => admitted
    case Consumed => true
    case _ => false
  }

  lemma SameAnswerSameAdmission(a: Outcome, b: Outcome)
    requires SameAnswer(a, b)
    ensures Admitted(a) <==> Admitted(b)
    ensures a.Consumed? <==> b.Consumed?
    ensures a.Replayed? <==> b.Replayed?
    ensures a.Conflict? <==> b.Conflict?
  {
  }

  /** The units an event charges to a row. */
  function ChargedBy(e: Event, row: Row): int {
    if Admitted(e.outcome) then UnitsFor(EntriesOf(e.call), row) else 0
  }

  /** A call changes a row by exactly the units it is admitted for; a refused call changes nothing at all. */
  lemma CallCharges(l: State, call: Call, row: Row)
    ensures var (l', outcome) := Apply(l, call);
            && Get(l'.used, row) == Get(l.used, row) + (if Admitted(outcome) then UnitsFor(EntriesOf(call), row) else 0)
            && (!Admitted(outcome) ==> l' == l)
  {
    ChargeAdds(EntriesOf(call), l.used, row);
    if call.Consume? {
      LoneUnits(call.entry, row);
    }
  }

  lemma LoneUnits(e: Entry, row: Row)
    ensures UnitsFor([e], row) == if e.row == row then e.amount else 0
  {
    assert [e][..0] == [];
  }

  // Conservation

  /** All units a history charges to a row. */
  function TotalCharged(h: seq<Event>, row: Row): int {
    if h == [] then 0 else ChargedBy(h[0], row) + TotalCharged(h[1..], row)
  }

  /** Conservation: a row holds exactly the sum of the amounts admitted to it. */
  lemma {:induction false} UseIsConserved(l: State, h: seq<Event>, row: Row)
    requires Replays(l, h)
    ensures Get(Replay(l, h).used, row) == Get(l.used, row) + TotalCharged(h, row)
    decreases |h|
  {
    if h != [] {
      CallCharges(l, h[0].call, row);
      SameAnswerSameAdmission(Apply(l, h[0].call).1, h[0].outcome);
      UseIsConserved(Apply(l, h[0].call).0, h[1..], row);
    }
  }

  ghost predicate AllWellFormed(h: seq<Event>) {
    forall e <- h :: WellFormed(e.call)
  }

  lemma {:induction false} UnitsAreNotNegative(batch: seq<Entry>, row: Row)
    requires forall e <- batch :: e.amount >= 1
    ensures UnitsFor(batch, row) >= 0
    ensures UnitsFor(batch, row) > 0 <==> exists e <- batch :: e.row == row
  {
    if batch != [] {
      UnitsAreNotNegative(batch[..|batch| - 1], row);
      assert batch == batch[..|batch| - 1] + [batch[|batch| - 1]];
    }
  }

  /** No call ever lowers a row. */
  lemma {:induction false} UseNeverDecreases(l: State, h: seq<Event>, row: Row)
    requires Replays(l, h) && AllWellFormed(h)
    ensures Get(Replay(l, h).used, row) >= Get(l.used, row)
    decreases |h|
  {
    if h != [] {
      CallCharges(l, h[0].call, row);
      UnitsAreNotNegative(EntriesOf(h[0].call), row);
      UseNeverDecreases(Apply(l, h[0].call).0, h[1..], row);
    }
  }

  // The ceiling

  /** The event was admitted with an entry for the row whose limit is at least `use`. */
  ghost predicate AdmittedUnder(e: Event, row: Row, use: int) {
    Admitted(e.outcome) && exists x <- EntriesOf(e.call) :: x.row == row && use <= x.limit
  }

  /** A call that changes a row leaves it within the limit the call itself gave for that row. */
  lemma CallRespectsItsLimit(l: State, call: Call, row: Row)
    requires WellFormed(call) && Get(Apply(l, call).0.used, row) != Get(l.used, row)
    ensures Admitted(Apply(l, call).1)
    ensures exists x <- EntriesOf(call) :: x.row == row && Get(Apply(l, call).0.used, row) <= x.limit
  {
    var batch := EntriesOf(call);
    CallCharges(l, call, row);
    UnitsAreNotNegative(batch, row);
    var i :| 0 <= i < |batch| && batch[i].row == row;
    if call.Consume? {
      LoneUnits(call.entry, row);
    } else {
      UnitsForEntry(batch, i);
      AdmittedIffAllFit(batch, l.used);
      assert !Over(batch[i], Get(l.used, row));
    }
    assert batch[i] in batch;
  }

  /**
   * The ceiling: after any history a row is as it was, or at most the limit of some admitted entry
   * for that row.
   */
  lemma {:induction false} UseStaysUnderALimit(l: State, h: seq<Event>, row: Row)
    requires Replays(l, h) && AllWellFormed(h)
    ensures var use := Get(Replay(l, h).used, row);
            use == Get(l.used, row) || exists e <- h :: AdmittedUnder(e, row, use)
    decreases |h|
  {
    if h != [] {
      var l', use := Apply(l, h[0].call).0, Get(Replay(l, h).used, row);
      UseStaysUnderALimit(l', h[1..], row);
      if exists e <- h[1..] :: AdmittedUnder(e, row, use) {
        var e :| e in h[1..] && AdmittedUnder(e, row, use);
        assert e in h;
      } else if Get(l'.used, row) != Get(l.used, row) {
        CallRespectsItsLimit(l, h[0].call, row);
        SameAnswerSameAdmission(Apply(l, h[0].call).1, h[0].outcome);
        assert AdmittedUnder(h[0], row, use);
        assert h[0] in h;
      }
    }
  }

  // Exactly once

  /** The event is an admitted attempt on this receipt. */
  predicate SpentFor(e: Event, receipt: Row) {
    e.call.ConsumeAllOnce? && e.call.receipt == receipt && e.outcome.Consumed?
  }

  function SpentCount(h: seq<Event>, receipt: Row): nat {
    if h == [] then 0 else (if SpentFor(h[0], receipt) then 1 else 0) + SpentCount(h[1..], receipt)
  }

  /** What one call does to one receipt. */
  lemma CallOnReceipt(l: State, call: Call, receipt: Row)
    ensures var (l', outcome) := Apply(l, call);
            var mine := call.ConsumeAllOnce? && call.receipt == receipt;
            && (receipt in l.receipts ==> receipt in l'.receipts && l'.receipts[receipt] == l.receipts[receipt])
            && (receipt !in l.receipts && receipt in l'.receipts <==> mine && outcome.Consumed?)
            && (receipt !in l.receipts && receipt in l'.receipts ==> l'.receipts[receipt] == call.fingerprint)
            && (mine && receipt in l.receipts ==>
                  l' == l && outcome == if l.receipts[receipt] == call.fingerprint then Replayed else Conflict)
            && (outcome.Consumed? ==> call.ConsumeAllOnce?)
  {
  }

  /** A receipt exists exactly when one attempt was charged for it, and no two ever are. */
  lemma {:induction false} ChargedAtMostOnce(l: State, h: seq<Event>, receipt: Row)
    requires Replays(l, h)
    ensures SpentCount(h, receipt)
            == (if receipt in Replay(l, h).receipts then 1 else 0) - (if receipt in l.receipts then 1 else 0)
    ensures receipt in l.receipts ==> Replay(l, h).receipts[receipt] == l.receipts[receipt]
    decreases |h|
  {
    if h != [] {
      CallOnReceipt(l, h[0].call, receipt);
      SameAnswerSameAdmission(Apply(l, h[0].call).1, h[0].outcome);
      ChargedAtMostOnce(Apply(l, h[0].call).0, h[1..], receipt);
    }
  }

  /**
   * After an attempt has been charged, every later call with the same attempt on the same day
   * changes nothing: it replays when its fingerprint is the same and conflicts when it is not.
   */
  lemma RetriesNeverCharge(l: State, h: seq<Event>, i: nat, j: nat)
    requires Replays(l, h) && i < j < |h|
    requires h[i].call.ConsumeAllOnce? && h[i].outcome.Consumed?
    requires h[j].call.ConsumeAllOnce? && h[j].call.receipt == h[i].call.receipt
    ensures h[j].outcome == if h[j].call.fingerprint == h[i].call.fingerprint then Replayed else Conflict
    ensures Replay(l, h[..j + 1]) == Replay(l, h[..j])
  {
    var receipt := h[i].call.receipt;
    StateBefore(l, h, i);
    StateBefore(l, h, j);
    var before, after := Replay(l, h[..i]), Replay(l, h[..i + 1]);
    CallOnReceipt(before, h[i].call, receipt);
    SameAnswerSameAdmission(Apply(before, h[i].call).1, h[i].outcome);
    var between := h[i + 1..j];
    assert h[..j] == h[..i + 1] + between;
    ReplaysSplit(l, h[..i + 1], between);
    ReplaysSplit(l, h[..j], h[j..]);
    assert h == h[..j] + h[j..];
    ChargedAtMostOnce(after, between, receipt);
    CallOnReceipt(Replay(l, h[..j]), h[j].call, receipt);
  }

  /** The state before an event, and its answer there. */
  lemma StateBefore(l: State, h: seq<Event>, i: nat)
    requires Replays(l, h) && i < |h|
    ensures Replays(l, h[..i]) && SameAnswer(Apply(Replay(l, h[..i]), h[i].call).1, h[i].outcome)
    ensures Replay(l, h[..i + 1]) == Apply(Replay(l, h[..i]), h[i].call).0
  {
    assert h == h[..i] + h[i..];
    ReplaysSplit(l, h[..i], h[i..]);
    assert h[..i + 1] == h[..i] + [h[i]];
    ReplaysSplit(l, h[..i], [h[i]]);
    var s := Replay(l, h[..i]);
    assert Replay(s, [h[i]]) == Replay(Apply(s, h[i].call).0, []);
  }

  /** A refused attempt leaves neither a charge nor a receipt. */
  lemma RefusalLeavesNothing(l: State, h: seq<Event>, i: nat)
    requires Replays(l, h) && i < |h| && !Admitted(h[i].outcome)
    ensures Replay(l, h[..i + 1]) == Replay(l, h[..i])
  {
    StateBefore(l, h, i);
    var s := Replay(l, h[..i]);
    SameAnswerSameAdmission(Apply(s, h[i].call).1, h[i].outcome);
    CallCharges(s, h[i].call, Row("1970-01-01", ""));
  }
}
