/** How much one key can be admitted for in any stretch of time as long as its window. */
module BurstBound {
  import opened Calendar
  import opened CounterRows
  import opened Ledger
  import opened LedgerHistory
  import opened Retention

  /** A history of calls made at known moments. */
  ghost predicate Timed(uses: seq<Use>, h: seq<Event>) {
    |uses| == |h| && forall i | 0 <= i < |h| :: !uses[i].UsePeek? && h[i].call == CallOf(uses[i])
  }

  function RequestsOf(use: Use): seq<CounterRequest> {
    match use
    case UseConsume(request, _) => [request]
    case UseAll(requests, _) => requests
    case UseOnce(requests, _, _) => requests
    case UsePeek(_, _) => []
  }

  /** The units a call asks for on one key and kind of window. */
  function UnitsAsked(requests: seq<CounterRequest>, key: string, span: Window): int {
    if requests == [] then 0
    else
      var last := requests[|requests| - 1];
      UnitsAsked(requests[..|requests| - 1], key, span)
      + if last.key == key && last.Span() == span then last.Units() else 0
  }

  /** The units admitted on the key by calls made at moments from `lo` up to, not including, `hi`. */
  function AdmittedBetween(uses: seq<Use>, h: seq<Event>, key: string, span: Window, lo: int, hi: int): int
    requires |uses| == |h|
  {
    if uses == [] then 0
    else
      (if lo <= uses[0].now < hi && Admitted(h[0].outcome) then UnitsAsked(RequestsOf(uses[0]), key, span) else 0)
      + AdmittedBetween(uses[1..], h[1..], key, span, lo, hi)
  }

  /** Raw keys carry no mark, ask for at least one unit, and the key of interest has a fixed limit. */
  ghost predicate Plain(requests: seq<CounterRequest>, key: string, span: Window, limit: int) {
    forall r <- requests ::
      '@' !in r.key && r.Units() >= 1 && (r.key == key && r.Span() == span ==> r.limit <= limit)
  }

  ghost predicate AllPlain(uses: seq<Use>, key: string, span: Window, limit: int) {
    forall use <- uses :: Plain(RequestsOf(use), key, span, limit)
  }

  lemma EntriesOfUse(use: Use)
    requires !use.UsePeek?
    ensures EntriesOf(CallOf(use)) == BatchOf(RequestsOf(use), use.now)
  {
  }

  lemma {:induction false} UnitsAskedAreCharged(requests: seq<CounterRequest>, now: Time, key: string, span: Window, u: Time)
    requires '@' !in key && forall r <- requests :: '@' !in r.key
    ensures UnitsFor(BatchOf(requests, now), RowOf(key, span, u))
            == if WindowIndex(span, now) == WindowIndex(span, u) then UnitsAsked(requests, key, span) else 0
  {
    if requests != [] {
      var init, last := requests[..|requests| - 1], requests[|requests| - 1];
      UnitsAskedAreCharged(init, now, key, span, u);
      LastUnits(requests, now, RowOf(key, span, u));
      assert last in requests;
      RowIsWindow(last.key, last.Span(), now, key, span, u);
    }
  }

  lemma LastUnits(requests: seq<CounterRequest>, now: Time, row: Row)
    requires requests != []
    ensures var init, last := requests[..|requests| - 1], requests[|requests| - 1];
            (UnitsFor(BatchOf(requests, now), row)
             == UnitsFor(BatchOf(init, now), row)
                + if RowOf(last.key, last.Span(), now) == row then last.Units() else 0)
  {
    assert BatchOf(requests, now)[..|requests| - 1] == BatchOf(requests[..|requests| - 1], now);
  }

  lemma {:induction false} UnitsAskedNotNegative(requests: seq<CounterRequest>, key: string, span: Window)
    requires forall r <- requests :: r.Units() >= 1
    ensures UnitsAsked(requests, key, span) >= 0
  {
    if requests != [] {
      UnitsAskedNotNegative(requests[..|requests| - 1], key, span);
    }
  }

  lemma InWindow(span: Window, u: int, lo: int, hi: int)
    requires hi == WindowEnd(span, u) && lo == hi - WindowMs(span)
    ensures forall v: int :: lo <= v < hi <==> WindowIndex(span, v) == WindowIndex(span, u)
  {
  }

  /** What one call is admitted for in the window of `u` is what it charges to the window's row. */
  lemma UseIsCharged(use: Use, event: Event, key: string, span: Window, limit: int, u: Time, lo: int, hi: int)
    requires !use.UsePeek? && event.call == CallOf(use) && '@' !in key && Plain(RequestsOf(use), key, span, limit)
    requires forall v: int :: lo <= v < hi <==> WindowIndex(span, v) == WindowIndex(span, u)
    ensures (if lo <= use.now < hi && Admitted(event.outcome) then UnitsAsked(RequestsOf(use), key, span) else 0)
         == ChargedBy(event, RowOf(key, span, u))
  {
    EntriesOfUse(use);
    UnitsAskedAreCharged(RequestsOf(use), use.now, key, span, u);
  }

  /** What is admitted in one aligned window is what its row is charged. */
  lemma {:induction false} WindowIsOneRow(uses: seq<Use>, h: seq<Event>, key: string, span: Window, limit: int, u: Time, lo: int, hi: int)
    requires Timed(uses, h) && '@' !in key && AllPlain(uses, key, span, limit)
    requires forall v: int :: lo <= v < hi <==> WindowIndex(span, v) == WindowIndex(span, u)
    ensures AdmittedBetween(uses, h, key, span, lo, hi) == TotalCharged(h, RowOf(key, span, u))
    decreases |uses|
  {
    if uses != [] {
      assert uses[0] in uses;
      UseIsCharged(uses[0], h[0], key, span, limit, u, lo, hi);
      WindowIsOneRow(uses[1..], h[1..], key, span, limit, u, lo, hi);
    }
  }

  /** Every admitted entry for the window's row is a request on the key, so its limit is the fixed one. */
  lemma RowLimitIsFixed(use: Use, call: Call, key: string, span: Window, limit: int, u: Time, x: Entry)
    requires !use.UsePeek? && call == CallOf(use) && '@' !in key && Plain(RequestsOf(use), key, span, limit)
    requires x in EntriesOf(call) && x.row == RowOf(key, span, u)
    ensures x.limit <= limit
  {
    EntriesOfUse(use);
    var requests := RequestsOf(use);
    var i :| 0 <= i < |requests| && BatchOf(requests, use.now)[i] == x;
    assert requests[i] in requests;
    RowIsWindow(requests[i].key, requests[i].Span(), use.now, key, span, u);
  }

  lemma TimedCallsAreWellFormed(uses: seq<Use>, h: seq<Event>, key: string, span: Window, limit: int)
    requires Timed(uses, h) && AllPlain(uses, key, span, limit)
    ensures AllWellFormed(h)
  {
    forall i | 0 <= i < |h|
      ensures WellFormed(h[i].call)
    {
      assert uses[i] in uses;
      EntriesOfUse(uses[i]);
      CallRows(uses[i]);
      UnitsAreAmounts(RequestsOf(uses[i]), uses[i].now);
    }
  }

  lemma UnitsAreAmounts(requests: seq<CounterRequest>, now: Time)
    requires forall r <- requests :: r.Units() >= 1
    ensures forall e <- BatchOf(requests, now) :: e.amount >= 1
  {
    var batch := BatchOf(requests, now);
    forall i | 0 <= i < |batch|
      ensures batch[i].amount >= 1
    {
      assert requests[i] in requests;
    }
  }

  /** Within one aligned window the key is admitted for at most its limit. */
  lemma WindowBound(uses: seq<Use>, h: seq<Event>, key: string, span: Window, limit: int, u: Time, lo: int, hi: int)
    requires Replays(EMPTY, h) && Timed(uses, h) && '@' !in key && limit >= 0
    requires AllPlain(uses, key, span, limit)
    requires hi == WindowEnd(span, u) && lo == hi - WindowMs(span)
    ensures AdmittedBetween(uses, h, key, span, lo, hi) <= limit
  {
    var row := RowOf(key, span, u);
    InWindow(span, u, lo, hi);
    WindowIsOneRow(uses, h, key, span, limit, u, lo, hi);
    UseIsConserved(EMPTY, h, row);
    TimedCallsAreWellFormed(uses, h, key, span, limit);
    UseStaysUnderALimit(EMPTY, h, row);
    if Get(Replay(EMPTY, h).used, row) != 0 {
      CappedUse(uses, h, key, span, limit, u, Get(Replay(EMPTY, h).used, row));
    }
  }

  lemma CappedUse(uses: seq<Use>, h: seq<Event>, key: string, span: Window, limit: int, u: Time, use: int)
    requires Timed(uses, h) && '@' !in key && AllPlain(uses, key, span, limit)
    requires exists e <- h :: AdmittedUnder(e, RowOf(key, span, u), use)
    ensures use <= limit
  {
    var i :| 0 <= i < |h| && AdmittedUnder(h[i], RowOf(key, span, u), use);
    var x :| x in EntriesOf(h[i].call) && x.row == RowOf(key, span, u) && use <= x.limit;
    assert uses[i] in uses;
    RowLimitIsFixed(uses[i], h[i].call, key, span, limit, u, x);
  }

  /** Splitting a stretch of time, and making it longer. */
  lemma {:induction false} StretchSplits(uses: seq<Use>, h: seq<Event>, key: string, span: Window, limit: int, lo: int, mid: int, hi: int)
    requires |uses| == |h| && AllPlain(uses, key, span, limit) && lo <= mid <= hi
    ensures AdmittedBetween(uses, h, key, span, lo, hi)
            == AdmittedBetween(uses, h, key, span, lo, mid) + AdmittedBetween(uses, h, key, span, mid, hi)
    ensures AdmittedBetween(uses, h, key, span, lo, mid) >= 0 && AdmittedBetween(uses, h, key, span, mid, hi) >= 0
    decreases |uses|
  {
    if uses != [] {
      assert uses[0] in uses;
      UnitsAskedNotNegative(RequestsOf(uses[0]), key, span);
      StretchSplits(uses[1..], h[1..], key, span, limit, lo, mid, hi);
    }
  }

  lemma {:induction false} NothingAfterTheEnd(uses: seq<Use>, h: seq<Event>, key: string, span: Window, lo: int, hi: int)
    requires |uses| == |h| && END_DAY * MS_PER_DAY <= lo
    ensures AdmittedBetween(uses, h, key, span, lo, hi) == 0
    decreases |uses|
  {
    if uses != [] {
      NothingAfterTheEnd(uses[1..], h[1..], key, span, lo, hi);
    }
  }

  lemma NextDay(t: int, q: int, end: int)
    requires q == t / MS_PER_DAY && end == (q + 1) * MS_PER_DAY
    ensures end - MS_PER_DAY <= t < end && end / MS_PER_DAY == q + 1
  {
  }

  lemma NextHour(t: int, q: int, end: int)
    requires q == t / MS_PER_HOUR && end == (q + 1) * MS_PER_HOUR
    ensures end - MS_PER_HOUR <= t < end && end / MS_PER_HOUR == q + 1
  {
  }

  lemma NextMinute(t: int, q: int, end: int)
    requires q == t / MS_PER_MINUTE && end == (q + 1) * MS_PER_MINUTE
    ensures end - MS_PER_MINUTE <= t < end && end / MS_PER_MINUTE == q + 1
  {
  }

  lemma NextWindow(span: Window, t: Time, end: int, ms: int)
    requires end == WindowEnd(span, t) && ms == WindowMs(span)
    ensures end - ms <= t < end && WindowEnd(span, end) == end + ms && FIRST_DAY * MS_PER_DAY <= end
  {
    match span
    case PerDay => NextDay(t, t / MS_PER_DAY, end);
    case PerHour => NextHour(t, t / MS_PER_HOUR, end);
    case PerMinute => NextMinute(t, t / MS_PER_MINUTE, end);
  }

  /** A bound on a stretch bounds its parts. */
  lemma PartsAreBounded(uses: seq<Use>, h: seq<Event>, key: string, span: Window, limit: int, lo: int, mid: int, hi: int)
    requires |uses| == |h| && AllPlain(uses, key, span, limit) && lo <= mid <= hi
    requires AdmittedBetween(uses, h, key, span, lo, hi) <= limit
    ensures AdmittedBetween(uses, h, key, span, lo, mid) <= limit
    ensures AdmittedBetween(uses, h, key, span, mid, hi) <= limit
  {
    StretchSplits(uses, h, key, span, limit, lo, mid, hi);
  }

  /** The window that starts at `start`, which may lie past the last representable moment. */
  lemma WindowFromBound(uses: seq<Use>, h: seq<Event>, key: string, span: Window, limit: int, start: int, hi: int)
    requires Replays(EMPTY, h) && Timed(uses, h) && '@' !in key && limit >= 0
    requires AllPlain(uses, key, span, limit)
    requires FIRST_DAY * MS_PER_DAY <= start && hi == WindowEnd(span, start) && start == hi - WindowMs(span)
    ensures AdmittedBetween(uses, h, key, span, start, hi) <= limit
  {
    if start < END_DAY * MS_PER_DAY {
      WindowBound(uses, h, key, span, limit, start, start, hi);
    } else {
      NothingAfterTheEnd(uses, h, key, span, start, hi);
    }
  }

  lemma TwoWindows(uses: seq<Use>, h: seq<Event>, key: string, span: Window, limit: int, t: int, end: int, ms: int)
    requires |uses| == |h| && AllPlain(uses, key, span, limit) && end - ms <= t < end
    requires AdmittedBetween(uses, h, key, span, end - ms, end) <= limit
    requires AdmittedBetween(uses, h, key, span, end, end + ms) <= limit
    ensures AdmittedBetween(uses, h, key, span, t, t + ms) <= 2 * limit
  {
    PartsAreBounded(uses, h, key, span, limit, end - ms, t, end);
    PartsAreBounded(uses, h, key, span, limit, end, t + ms, end + ms);
    StretchSplits(uses, h, key, span, limit, t, end, t + ms);
  }

  lemma BurstWithin(uses: seq<Use>, h: seq<Event>, key: string, span: Window, limit: int, t: Time, end: int, ms: int)
    requires Replays(EMPTY, h) && Timed(uses, h) && '@' !in key && limit >= 0
    requires AllPlain(uses, key, span, limit)
    requires end == WindowEnd(span, t) && ms == WindowMs(span)
    ensures AdmittedBetween(uses, h, key, span, t, t + ms) <= 2 * limit
  {
    NextWindow(span, t, end, ms);
    WindowBound(uses, h, key, span, limit, t, end - ms, end);
    WindowFromBound(uses, h, key, span, limit, end, end + ms);
    TwoWindows(uses, h, key, span, limit, t, end, ms);
  }

  /**
   * The burst bound: with a fixed limit, the units admitted on one key in any stretch of time as
   * long as its window are at most twice the limit.
   */
  lemma BurstIsAtMostTwice(uses: seq<Use>, h: seq<Event>, key: string, span: Window, limit: int, t: Time)
    requires Replays(EMPTY, h) && Timed(uses, h) && '@' !in key && limit >= 0
    requires AllPlain(uses, key, span, limit)
    ensures AdmittedBetween(uses, h, key, span, t, t + WindowMs(span)) <= 2 * limit
  {
    BurstWithin(uses, h, key, span, limit, t, WindowEnd(span, t), WindowMs(span));
  }

  // The bound is reached

  /** Two calls that ask for the whole limit on different rows are both admitted. */
  lemma BothAdmitted(e: Entry, f: Entry, limit: int)
    requires e.row != f.row && e.limit == f.limit == e.amount == f.amount == limit
    ensures Replays(EMPTY, [Event(0, Consume(e.row.day, e), Counted(true, limit, limit, e.resetAt)),
                            Event(1, Consume(f.row.day, f), Counted(true, limit, limit, f.resetAt))])
  {
    var h := [Event(0, Consume(e.row.day, e), Counted(true, limit, limit, e.resetAt)),
              Event(1, Consume(f.row.day, f), Counted(true, limit, limit, f.resetAt))];
    assert h[1..] == [h[1]] && h[1..][1..] == [];
  }

  /** What two admitted calls add up to, in any stretch that holds both of them. */
  lemma BothCount(r: CounterRequest, uses: seq<Use>, h: seq<Event>, lo: int, hi: int)
    requires |uses| == |h| == 2 && uses[0].UseConsume? && uses[1].UseConsume? && uses[0].request == uses[1].request == r
    requires lo <= uses[0].now < hi && lo <= uses[1].now < hi && Admitted(h[0].outcome) && Admitted(h[1].outcome)
    ensures AdmittedBetween(uses, h, r.key, r.Span(), lo, hi) == 2 * r.Units()
  {
    assert UnitsAsked([r], r.key, r.Span()) == r.Units() by {
      assert [r][..0] == [];
    }
    var rest, tail := uses[1..], h[1..];
    assert rest == [uses[1]] && tail == [h[1]] && rest[1..] == [] && tail[1..] == [];
    assert AdmittedBetween(rest, tail, r.key, r.Span(), lo, hi) == r.Units();
  }

  lemma EndChangesRow(key: string, span: Window, last: Time, end: Time)
    requires '@' !in key && end == WindowEnd(span, last)
    ensures RowOf(key, span, last) != RowOf(key, span, end)
  {
    RowIsWindow(key, span, last, key, span, end);
    NextWindow(span, last, end, WindowMs(span));
    InWindow(span, last, end - WindowMs(span), end);
  }

  lemma FullCalls(r: CounterRequest, t: Time, u: Time) returns (h: seq<Event>)
    requires CounterRow(r, t) != CounterRow(r, u) && r.limit == r.Units()
    ensures Replays(EMPTY, h) && Timed([UseConsume(r, t), UseConsume(r, u)], h)
    ensures |h| == 2 && Admitted(h[0].outcome) && Admitted(h[1].outcome)
  {
    var e, f := EntryOf(r, t), EntryOf(r, u);
    h := [Event(0, ConsumeCall(r, t), Counted(true, r.limit, r.limit, e.resetAt)),
          Event(1, ConsumeCall(r, u), Counted(true, r.limit, r.limit, f.resetAt))];
    BothAdmitted(e, f, r.limit);
  }

  lemma FullCallsArePlain(r: CounterRequest, t: Time, u: Time)
    requires '@' !in r.key && r.limit == r.Units() >= 1
    ensures AllPlain([UseConsume(r, t), UseConsume(r, u)], r.key, r.Span(), r.limit)
  {
  }

  /** Two calls in different windows, each for the whole limit. */
  lemma TwoFullCalls(r: CounterRequest, t: Time, u: Time) returns (uses: seq<Use>, h: seq<Event>)
    requires '@' !in r.key && r.limit == r.Units() >= 1
    requires CounterRow(r, t) != CounterRow(r, u) && t < u
    ensures Replays(EMPTY, h) && Timed(uses, h) && AllPlain(uses, r.key, r.Span(), r.limit)
    ensures forall hi: int | u < hi :: AdmittedBetween(uses, h, r.key, r.Span(), t, hi) == 2 * r.limit
  {
    uses := [UseConsume(r, t), UseConsume(r, u)];
    h := FullCalls(r, t, u);
    FullCallsArePlain(r, t, u);
    forall hi: int | u < hi
      ensures AdmittedBetween(uses, h, r.key, r.Span(), t, hi) == 2 * r.limit
    {
      BothCount(r, uses, h, t, hi);
    }
  }

  /**
   * The bound is reached: for every key, kind of window, limit and window end, some history admits twice
   * the limit in the two milliseconds around that end, and so in a stretch as long as the window.
   */
  lemma TwiceIsReached(key: string, span: Window, limit: int, last: Time, end: Time) returns (uses: seq<Use>, h: seq<Event>)
    requires '@' !in key && limit >= 1 && end == WindowEnd(span, last) && end == last + 1
    ensures Replays(EMPTY, h) && Timed(uses, h) && AllPlain(uses, key, span, limit)
    ensures AdmittedBetween(uses, h, key, span, last, end + 1) == 2 * limit
    ensures AdmittedBetween(uses, h, key, span, last, last + WindowMs(span)) == 2 * limit
  {
    EndChangesRow(key, span, last, end);
    uses, h := TwoFullCalls(CounterRequest(key, limit, Some(limit), Some(span)), last, end);
  }
}
