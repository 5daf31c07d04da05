/** What the answers of a counter store mean for the caller: the use that is reported, the reset, and who is refused. */
module StoreAnswers {
  import opened Text
  import opened Calendar
  import opened CounterRows
  import opened Ledger

  /** From `now` on, the request counts on the same row up to `at`, and on another one from `at` on. */
  ghost predicate RollsOverAt(request: CounterRequest, now: Time, at: int) {
    now < at && forall t: Time | now <= t :: CounterRow(request, t) == CounterRow(request, now) <==> t < at
  }

  lemma EndRollsOver(request: CounterRequest, now: Time)
    ensures RollsOverAt(request, now, EntryOf(request, now).resetAt)
  {
    ResetIsFirstRowChange(request, now);
  }

  function UseOf(s: State, request: CounterRequest, now: Time): int {
    Get(s.used, CounterRow(request, now))
  }

  /**
   * One request is allowed exactly when it fits under its limit, and then it alone is charged. The answer
   * reports the use of the row after the call, the limit, and the moment at which the row rolls over.
   */
  lemma ConsumeAnswers(s: State, request: CounterRequest, now: Time)
    ensures var (s', outcome) := Apply(s, ConsumeCall(request, now));
            && outcome.Counted? && outcome.limit == request.limit
            && outcome.allowed == (UseOf(s, request, now) + request.Units() <= request.limit)
            && outcome.used == UseOf(s', request, now)
            && outcome.used == UseOf(s, request, now) + (if outcome.allowed then request.Units() else 0)
            && (forall row | row != CounterRow(request, now) :: Get(s'.used, row) == Get(s.used, row))
            && s'.receipts == s.receipts
            && RollsOverAt(request, now, outcome.resetAt)
  {
    EndRollsOver(request, now);
  }

  /** After a daily request, `peek` reads the reported use. */
  lemma PeekReadsTheAnswer(s: State, request: CounterRequest, now: Time)
    requires request.Span().PerDay?
    ensures var (s', outcome) := Apply(s, ConsumeCall(request, now));
            Peek(s', request.key, now) == outcome.used
  {
  }

  // Batches

  /** The ceiling of request `i` refuses the batch: it is switched off, or its row has no room left. */
  predicate Refuses(s: State, requests: seq<CounterRequest>, now: Time, i: nat)
    requires i < |requests|
  {
    requests[i].limit <= 0 || UseOf(s, requests[i], now) + requests[i].Units() > requests[i].limit
  }

  /** The report says which ceiling it is, and when its row rolls over. */
  ghost predicate Reports(request: CounterRequest, now: Time, x: ExhaustedCounter) {
    x.key == request.key && x.limit == request.limit && RollsOverAt(request, now, x.resetAt)
  }

  ghost predicate Rises(at: seq<nat>) {
    forall j, k | 0 <= j < k < |at| :: at[j] < at[k]
  }

  /** Each report is that of a refusing request. */
  ghost predicate ReportsAt(s: State, requests: seq<CounterRequest>, now: Time, reports: seq<ExhaustedCounter>, at: seq<nat>) {
    && |at| == |reports|
    && forall k | 0 <= k < |at| :: at[k] < |requests| && Refuses(s, requests, now, at[k]) && Reports(requests[at[k]], now, reports[k])
  }

  ghost predicate ReportsAll(s: State, requests: seq<CounterRequest>, now: Time, at: seq<nat>) {
    forall i: nat | i < |requests| && Refuses(s, requests, now, i) :: i in at
  }

  /** The reports are those of the refusing requests at places `at`, in order. */
  ghost predicate ReportsOf(s: State, requests: seq<CounterRequest>, now: Time, reports: seq<ExhaustedCounter>, at: seq<nat>) {
    Rises(at) && ReportsAt(s, requests, now, reports, at) && ReportsAll(s, requests, now, at)
  }

  lemma BatchPrefix(requests: seq<CounterRequest>, now: Time, n: nat)
    requires n <= |requests|
    ensures BatchOf(requests, now)[..n] == BatchOf(requests[..n], now)
  {
  }

  lemma SameBefore(s: State, requests: seq<CounterRequest>, now: Time, n: nat)
    requires |requests| == n + 1
    ensures forall i: nat | i < n :: requests[..n][i] == requests[i]
    ensures forall i: nat | i < n :: Refuses(s, requests[..n], now, i) == Refuses(s, requests, now, i)
  {
  }

  lemma OneReportMore(s: State, requests: seq<CounterRequest>, now: Time, reports: seq<ExhaustedCounter>, at: seq<nat>,
                      n: nat, x: ExhaustedCounter)
    requires |requests| == n + 1 && ReportsAt(s, requests[..n], now, reports, at)
    requires Reports(requests[n], now, x) && Refuses(s, requests, now, n)
    ensures ReportsAt(s, requests, now, reports + [x], at + [n])
  {
    SameBefore(s, requests, now, n);
    forall k | 0 <= k < |at + [n]|
      ensures (at + [n])[k] < |requests| && Refuses(s, requests, now, (at + [n])[k])
              && Reports(requests[(at + [n])[k]], now, (reports + [x])[k])
    {
      if k < |at| {
        assert Refuses(s, requests[..n], now, at[k]);
      }
    }
  }

  lemma NoReportMore(s: State, requests: seq<CounterRequest>, now: Time, reports: seq<ExhaustedCounter>, at: seq<nat>, n: nat)
    requires |requests| == n + 1 && ReportsAt(s, requests[..n], now, reports, at)
    ensures ReportsAt(s, requests, now, reports, at)
  {
    SameBefore(s, requests, now, n);
    forall k | 0 <= k < |at|
      ensures at[k] < |requests| && Refuses(s, requests, now, at[k]) && Reports(requests[at[k]], now, reports[k])
    {
      assert Refuses(s, requests[..n], now, at[k]);
    }
  }

  lemma AllOneMore(s: State, requests: seq<CounterRequest>, now: Time, at: seq<nat>, n: nat)
    requires |requests| == n + 1 && ReportsAll(s, requests[..n], now, at)
    ensures ReportsAll(s, requests, now, at + [n])
    ensures !Refuses(s, requests, now, n) ==> ReportsAll(s, requests, now, at)
  {
    SameBefore(s, requests, now, n);
    assert (at + [n])[|at|] == n;
    forall i: nat | i < n && Refuses(s, requests, now, i)
      ensures i in at && i in at + [n]
    {
      assert Refuses(s, requests[..n], now, i);
    }
  }

  lemma PlacesStep(s: State, requests: seq<CounterRequest>, now: Time, reports: seq<ExhaustedCounter>, at: seq<nat>, n: nat, x: ExhaustedCounter)
    requires |requests| == n + 1 && ReportsOf(s, requests[..n], now, reports, at) && Reports(requests[n], now, x)
    ensures Refuses(s, requests, now, n) ==> ReportsOf(s, requests, now, reports + [x], at + [n])
    ensures !Refuses(s, requests, now, n) ==> ReportsOf(s, requests, now, reports, at)
  {
    AllOneMore(s, requests, now, at, n);
    if Refuses(s, requests, now, n) {
      OneReportMore(s, requests, now, reports, at, n, x);
    } else {
      NoReportMore(s, requests, now, reports, at, n);
    }
  }

  /** The exhausted counters are exactly those of the refusing requests, in order, each with its own reset. */
  lemma {:induction false} RefusalReports(s: State, requests: seq<CounterRequest>, now: Time) returns (at: seq<nat>)
    ensures ReportsOf(s, requests, now, ExhaustedBy(BatchOf(requests, now), s.used), at)
  {
    if requests == [] {
      at := [];
    } else {
      var n := |requests| - 1;
      var batch := BatchOf(requests, now);
      at := RefusalReports(s, requests[..n], now);
      BatchPrefix(requests, now, n);
      EndRollsOver(requests[n], now);
      PlacesStep(s, requests, now, ExhaustedBy(batch[..n], s.used), at, n, Report(batch[n]));
      if Refuses(s, requests, now, n) {
        at := at + [n];
      }
    }
  }

  /** A refusal lists something, and nothing is charged or recorded. */
  lemma RefusedBatch(s: State, requests: seq<CounterRequest>, attempt: Attempt, now: Time)
    requires ReceiptRow(attempt, now) !in s.receipts && DistinctRows(BatchOf(requests, now))
    ensures var (all, once) := (Apply(s, AllCall(requests, now)), Apply(s, OnceCall(requests, attempt, now)));
            var refused := exists i: nat | i < |requests| :: Refuses(s, requests, now, i);
            && all.1 == Spent(!refused)
            && (if refused then all.0 == once.0 == s && once.1.Refused? && once.1.exhausted != [] else once.1 == Consumed)
  {
    var at := RefusalReports(s, requests, now);
    SomeRefused(s, requests, now, ExhaustedBy(BatchOf(requests, now), s.used), at);
    if i: nat :| i < |requests| && Refuses(s, requests, now, i) {
      assert i in at;
    }
  }

  lemma SomeRefused(s: State, requests: seq<CounterRequest>, now: Time, reports: seq<ExhaustedCounter>, at: seq<nat>)
    requires ReportsOf(s, requests, now, reports, at)
    ensures reports != [] ==> exists i: nat | i < |requests| :: Refuses(s, requests, now, i)
  {
    if reports != [] {
      assert Refuses(s, requests, now, at[0]);
    }
  }

  /** Two requests on one row are an error before anything is charged, unless the attempt has a receipt. */
  lemma SharedRowIsAnError(s: State, requests: seq<CounterRequest>, attempt: Attempt, now: Time, i: nat, j: nat)
    requires i < j < |requests| && CounterRow(requests[i], now) == CounterRow(requests[j], now)
    ensures Apply(s, AllCall(requests, now)) == (s, DuplicateRows)
    ensures ReceiptRow(attempt, now) !in s.receipts ==> Apply(s, OnceCall(requests, attempt, now)) == (s, DuplicateRows)
  {
    var batch := BatchOf(requests, now);
    assert batch[i].row == batch[j].row;
  }

  // Sweeps

  lemma CutoffIs(now: Time) returns (cutoff: Time)
    requires FIRST_DAY + 2 <= DayOf(now)
    ensures RetentionCutoff(now) == DayKey(cutoff) && DayOf(cutoff) == DayOf(now) - 2
  {
    cutoff := now - 172_800_000;
    TwoDaysBefore(now, cutoff);
  }

  lemma CutoffDay(now: Time, t: Time)
    requires FIRST_DAY + 2 <= DayOf(now)
    ensures Less(DayKey(t), RetentionCutoff(now)) <==> DayOf(t) < DayOf(now) - 2
  {
    var cutoff := CutoffIs(now);
    DayKeyOrder(t, cutoff);
  }

  lemma TwoDaysBefore(now: Time, cutoff: Time)
    requires cutoff == now - 172_800_000
    ensures DayOf(cutoff) == DayOf(now) - 2
  {
  }

  /** A sweep keeps exactly the rows and receipts of the day before yesterday and later. */
  lemma SweepKeepsTwoDays(s: State, now: Time, row: Row, t: Time)
    requires FIRST_DAY + 2 <= DayOf(now) && row.day == DayKey(t)
    ensures row in Prune(s, RetentionCutoff(now)).used <==> row in s.used && DayOf(t) >= DayOf(now) - 2
    ensures row in Prune(s, RetentionCutoff(now)).receipts <==> row in s.receipts && DayOf(t) >= DayOf(now) - 2
    ensures row in Prune(s, RetentionCutoff(now)).used ==> Prune(s, RetentionCutoff(now)).used[row] == s.used[row]
    ensures row in Prune(s, RetentionCutoff(now)).receipts ==> Prune(s, RetentionCutoff(now)).receipts[row] == s.receipts[row]
  {
    CutoffDay(now, t);
  }
}
