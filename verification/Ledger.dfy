/**
 * What a counter store means: a map of charged rows and a map of receipts, and what each call does
 * to them when calls happen one after the other.
 */
module Ledger {
  import opened Text
  import opened Calendar
  import opened CounterRows

  datatype Attempt = Attempt(key: string, fingerprint: string)

  datatype ExhaustedCounter = ExhaustedCounter(key: string, limit: int, resetAt: int)

  /** A request whose row and reset have been worked out for the moment of the call. */
  datatype Entry = Entry(key: string, limit: int, amount: int, row: Row, resetAt: int)

  /** A call once its rows are known, on the day of its moment. */
  datatype Call =
    | Consume(day: DayText, entry: Entry)
    | ConsumeAll(day: DayText, entries: seq<Entry>)
    | ConsumeAllOnce(day: DayText, entries: seq<Entry>, receipt: Row, fingerprint: string)

  datatype Outcome =
    | Counted(allowed: bool, used: int, limit: int, resetAt: int)
    | Spent(admitted: bool)
    | Consumed
    | Replayed
    | Conflict
    | Refused(exhausted: seq<ExhaustedCounter>)
    /** The error thrown when two requests of a batch share a row. */
    | DuplicateRows

  datatype State = State(used: map<Row, int>, receipts: map<Row, string>)

  const EMPTY := State(map[], map[])

  function EntryOf(request: CounterRequest, now: Time): Entry {
    Entry(request.key, request.limit, request.Units(), CounterRow(request, now), WindowEnd(request.Span(), now))
  }

  function BatchOf(requests: seq<CounterRequest>, now: Time): (b: seq<Entry>)
    ensures |b| == |requests|
    ensures forall i | 0 <= i < |b| :: b[i] == EntryOf(requests[i], now)
  {
    seq(|requests|, i requires 0 <= i < |requests| => EntryOf(requests[i], now))
  }

  function ReceiptRow(attempt: Attempt, now: Time): Row {
    RowOf(attempt.key, PerDay, now)
  }

  function ConsumeCall(request: CounterRequest, now: Time): Call {
    Consume(DayKey(now), EntryOf(request, now))
  }

  function AllCall(requests: seq<CounterRequest>, now: Time): Call {
    ConsumeAll(DayKey(now), BatchOf(requests, now))
  }

  function OnceCall(requests: seq<CounterRequest>, attempt: Attempt, now: Time): Call {
    ConsumeAllOnce(DayKey(now), BatchOf(requests, now), ReceiptRow(attempt, now), attempt.fingerprint)
  }

  function Get(used: map<Row, int>, row: Row): int {
    if row in used then used[row] else 0
  }

  predicate DistinctRows(batch: seq<Entry>) {
    forall i, j | 0 <= i < j < |batch| :: batch[i].row != batch[j].row
  }

  /** One of the first `n` entries is for this row. */
  predicate HasRow(batch: seq<Entry>, n: nat, row: Row)
    requires n <= |batch|
  {
    exists j | 0 <= j < n :: batch[j].row == row
  }

  /** Whether the ceiling of a batch entry refuses it. */
  predicate Over(entry: Entry, used: int) {
    entry.limit <= 0 || used + entry.amount > entry.limit
  }

  function Report(entry: Entry): ExhaustedCounter {
    ExhaustedCounter(entry.key, entry.limit, entry.resetAt)
  }

  /** The entries a batch is refused for, in order. */
  function ExhaustedBy(batch: seq<Entry>, used: map<Row, int>): seq<ExhaustedCounter> {
    if batch == [] then []
    else
      var last := batch[|batch| - 1];
      ExhaustedBy(batch[..|batch| - 1], used) + if Over(last, Get(used, last.row)) then [Report(last)] else []
  }

  /** The rows after every entry has been added to its row. */
  function Charge(batch: seq<Entry>, used: map<Row, int>): map<Row, int> {
    if batch == [] then used
    else
      var last := batch[|batch| - 1];
      var before := Charge(batch[..|batch| - 1], used);
      before[last.row := Get(before, last.row) + last.amount]
  }

  /** One entry charged to its row, or refused by its ceiling. */
  function ApplyConsume(s: State, entry: Entry): (State, Outcome) {
    var used := Get(s.used, entry.row);
    if used + entry.amount > entry.limit then (s, Counted(false, used, entry.limit, entry.resetAt))
    else
      (s.(used := s.used[entry.row := used + entry.amount]),
       Counted(true, used + entry.amount, entry.limit, entry.resetAt))
  }

  function ApplyAll(s: State, batch: seq<Entry>): (State, Outcome) {
    if !DistinctRows(batch) then (s, DuplicateRows)
    else if ExhaustedBy(batch, s.used) != [] then (s, Spent(false))
    else (s.(used := Charge(batch, s.used)), Spent(true))
  }

  function ApplyOnce(s: State, batch: seq<Entry>, receipt: Row, fingerprint: string): (State, Outcome) {
    if receipt in s.receipts then (s, if s.receipts[receipt] == fingerprint then Replayed else Conflict)
    else if !DistinctRows(batch) then (s, DuplicateRows)
    else if ExhaustedBy(batch, s.used) != [] then (s, Refused(ExhaustedBy(batch, s.used)))
    else (State(Charge(batch, s.used), s.receipts[receipt := fingerprint]), Consumed)
  }

  /** One call, alone: the new state and what the caller is told. */
  function Apply(s: State, call: Call): (State, Outcome) {
    match call
    case Consume(_, entry) => ApplyConsume(s, entry)
    case ConsumeAll(_, entries) => ApplyAll(s, entries)
    case ConsumeAllOnce(_, entries, receipt, fingerprint) => ApplyOnce(s, entries, receipt, fingerprint)
  }

  function Peek(s: State, key: string, now: Time): int {
    Get(s.used, Row(DayKey(now), key))
  }

  /** The rows a sweep leaves. */
  function Kept<T>(rows: map<Row, T>, cutoff: DayText): map<Row, T> {
    map row | row in rows && !Less(row.day, cutoff) :: rows[row]
  }

  function Prune(s: State, cutoff: DayText): State {
    State(Kept(s.used, cutoff), Kept(s.receipts, cutoff))
  }

  function EntriesOf(call: Call): seq<Entry> {
    if call.Consume? then [call.entry] else call.entries
  }

  /** Every entry asks for at least one unit, and every row belongs to the day of the call. */
  predicate WellFormed(call: Call) {
    && (forall e <- EntriesOf(call) :: e.amount >= 1 && e.row.day == call.day)
    && (call.ConsumeAllOnce? ==> call.receipt.day == call.day)
  }

  // What a batch charges and what it is refused for, row by row

  /** The units a batch would add to one row. */
  function UnitsFor(batch: seq<Entry>, row: Row): int {
    if batch == [] then 0
    else
      var last := batch[|batch| - 1];
      UnitsFor(batch[..|batch| - 1], row) + if last.row == row then last.amount else 0
  }

  /** Charging adds to every row exactly its units, whatever the order of the entries. */
  lemma {:induction false} ChargeAdds(batch: seq<Entry>, used: map<Row, int>, row: Row)
    ensures Get(Charge(batch, used), row) == Get(used, row) + UnitsFor(batch, row)
    ensures row in Charge(batch, used) <==> row in used || exists e <- batch :: e.row == row
  {
    if batch != [] {
      var init, last := batch[..|batch| - 1], batch[|batch| - 1];
      ChargeAdds(init, used, row);
      assert batch == init + [last];
    }
  }

  /** A batch is admitted exactly when every entry fits under its own ceiling. */
  lemma {:induction false} AdmittedIffAllFit(batch: seq<Entry>, used: map<Row, int>)
    ensures ExhaustedBy(batch, used) == [] <==> forall e <- batch :: !Over(e, Get(used, e.row))
  {
    if batch != [] {
      AdmittedIffAllFit(batch[..|batch| - 1], used);
      assert batch == batch[..|batch| - 1] + [batch[|batch| - 1]];
    }
  }

  lemma {:induction false} UnitsForConcat(a: seq<Entry>, b: seq<Entry>, row: Row)
    ensures UnitsFor(a + b, row) == UnitsFor(a, row) + UnitsFor(b, row)
  {
    if b == [] {
      assert a + b == a;
    } else {
      UnitsForConcat(a, b[..|b| - 1], row);
      assert (a + b)[..|a + b| - 1] == a + b[..|b| - 1];
    }
  }

  lemma {:induction false} ExhaustedByConcat(a: seq<Entry>, b: seq<Entry>, used: map<Row, int>)
    ensures ExhaustedBy(a + b, used) == ExhaustedBy(a, used) + ExhaustedBy(b, used)
  {
    if b == [] {
      assert a + b == a;
    } else {
      ExhaustedByConcat(a, b[..|b| - 1], used);
      assert (a + b)[..|a + b| - 1] == a + b[..|b| - 1];
    }
  }

  lemma {:induction false} UnitsForAbsent(batch: seq<Entry>, row: Row)
    requires forall e <- batch :: e.row != row
    ensures UnitsFor(batch, row) == 0
  {
    if batch != [] {
      UnitsForAbsent(batch[..|batch| - 1], row);
    }
  }

  /** In a batch with distinct rows, a row's units are the amount of its only entry. */
  lemma {:induction false} UnitsForEntry(batch: seq<Entry>, i: nat)
    requires DistinctRows(batch) && i < |batch|
    ensures UnitsFor(batch, batch[i].row) == batch[i].amount
  {
    var init := batch[..|batch| - 1];
    if i == |batch| - 1 {
      UnitsForAbsent(init, batch[i].row);
    } else {
      UnitsForEntry(init, i);
    }
  }
}
