/** Counter requests, the row a request is charged to, and the moment that row rolls over. */
module CounterRows {
  import opened Text
  import opened Calendar

  datatype Option<+T> = None | Some(value: T)

  datatype Window = PerDay | PerHour | PerMinute

  /** A request; an absent amount is 1 and an absent window is the day. */
  datatype CounterRequest = CounterRequest(key: string, limit: int, amount: Option<int>, window: Option<Window>) {
    function Units(): int {
      if amount.Some? then amount.value else 1
    }

    function Span(): Window {
      if window.Some? then window.value else PerDay
    }
  }

  /** The text of a day: ten characters, none of them a colon. */
  type DayText = s: string | |s| == 10 && ':' !in s witness "1970-01-01"

  /** A counter or receipt row: the day it belongs to and the stored key. */
  datatype Row = Row(day: DayText, key: string)

  function DayKey(now: Time): DayText {
    KeyTexts(now);
    IsoDayCharacters(DayOf(now));
    IsoText(now)[..10]
  }

  function HourKey(now: Time): string {
    IsoText(now)[..13]
  }

  function MinuteKey(now: Time): string {
    IsoText(now)[..16]
  }

  function StoredKey(key: string, span: Window, now: Time): string {
    match span
    case PerMinute => key + "@" + MinuteKey(now)
    case PerHour => key + "@" + HourKey(now)
    case PerDay => key
  }

  function RowOf(key: string, span: Window, now: Time): Row {
    Row(DayKey(now), StoredKey(key, span, now))
  }

  function CounterRow(request: CounterRequest, now: Time): Row {
    RowOf(request.key, request.Span(), now)
  }

  /** The text both stores use to tell rows apart. */
  function RowText(row: Row): string {
    row.day + ":" + row.key
  }

  const RETENTION_DAYS := 2

  /** The day before which rows are deleted; the instants whose cutoff would fall before year 0 are left out. */
  function RetentionCutoff(now: Time): DayText
    requires FIRST_DAY + RETENTION_DAYS <= DayOf(now)
  {
    DayKey(now - RETENTION_DAYS * MS_PER_DAY)
  }

  function WindowMs(span: Window): (ms: nat)
    ensures ms > 0
  {
    match span
    case PerDay => MS_PER_DAY
    case PerHour => MS_PER_HOUR
    case PerMinute => MS_PER_MINUTE
  }

  /** The index of the aligned UTC window that holds `t`. */
  function WindowIndex(span: Window, t: int): int {
    match span
    case PerDay => t / MS_PER_DAY
    case PerHour => t / MS_PER_HOUR
    case PerMinute => t / MS_PER_MINUTE
  }

  /** The end of that window. */
  function WindowEnd(span: Window, t: int): int {
    match span
    case PerDay => (t / MS_PER_DAY + 1) * MS_PER_DAY
    case PerHour => (t / MS_PER_HOUR + 1) * MS_PER_HOUR
    case PerMinute => (t / MS_PER_MINUTE + 1) * MS_PER_MINUTE
  }

  // Text of the row

  lemma Heads(day: string, hour: string, minute: string, second: string)
    ensures var iso := day + (hour + (minute + second));
            && iso[..|day|] == day
            && iso[..|day| + |hour|] == day + hour
            && iso[..|day| + |hour| + |minute|] == day + hour + minute
  {
  }

  lemma KeyTexts(t: Time)
    ensures IsoText(t)[..10] == IsoDay(DayOf(t))
    ensures HourKey(t) == IsoDay(DayOf(t)) + HourText(t)
    ensures MinuteKey(t) == HourKey(t) + MinuteText(t)
  {
    Heads(IsoDay(DayOf(t)), HourText(t), MinuteText(t), SecondText(t));
  }

  lemma IsoDayCharacters(day: Day)
    ensures forall c <- IsoDay(day) :: '0' <= c <= '9' || c == '-'
  {
    var c := CivilOf(day);
    PadIsDigits(c.year, 4);
    PadIsDigits(c.month + 1, 2);
    PadIsDigits(c.date, 2);
  }

  lemma DayKeyCharacters(t: Time)
    ensures forall c <- DayKey(t) :: '0' <= c <= '9' || c == '-'
  {
    KeyTexts(t);
    IsoDayCharacters(DayOf(t));
  }

  lemma DayKeyOrder(t: Time, u: Time)
    ensures Less(DayKey(t), DayKey(u)) <==> DayOf(t) < DayOf(u)
    ensures DayKey(t) == DayKey(u) <==> DayOf(t) == DayOf(u)
  {
    KeyTexts(t);
    KeyTexts(u);
    IsoDayOrder(DayOf(t), DayOf(u));
  }

  lemma JoinIdentity(a: string, b: string, x: string, y: string)
    requires |a| == |b|
    ensures a + x == b + y <==> a == b && x == y
  {
    assert (a + x)[..|a|] == a && (b + y)[..|b|] == b;
    assert (a + x)[|a|..] == x && (b + y)[|b|..] == y;
  }

  lemma HourKeyIdentity(t: Time, u: Time)
    ensures HourKey(t) == HourKey(u) <==> t / MS_PER_HOUR == u / MS_PER_HOUR
  {
    KeyTexts(t);
    KeyTexts(u);
    PowersOfTen();
    JoinIdentity(IsoDay(DayOf(t)), IsoDay(DayOf(u)), HourText(t), HourText(u));
    IsoDayOrder(DayOf(t), DayOf(u));
    JoinIdentity("T", "T", Pad(HourOf(t), 2), Pad(HourOf(u), 2));
    PadInjective(HourOf(t), HourOf(u), 2);
    ClockArithmetic(t);
    ClockArithmetic(u);
  }

  lemma MinuteKeyIdentity(t: Time, u: Time)
    ensures MinuteKey(t) == MinuteKey(u) <==> t / MS_PER_MINUTE == u / MS_PER_MINUTE
  {
    KeyTexts(t);
    KeyTexts(u);
    PowersOfTen();
    JoinIdentity(HourKey(t), HourKey(u), MinuteText(t), MinuteText(u));
    HourKeyIdentity(t, u);
    JoinIdentity(":", ":", Pad(MinuteOf(t), 2), Pad(MinuteOf(u), 2));
    PadInjective(MinuteOf(t), MinuteOf(u), 2);
    ClockArithmetic(t);
    ClockArithmetic(u);
  }

  /** The text of a row identifies it, whatever its key contains. */
  lemma RowTextIdentity(a: Row, b: Row)
    ensures RowText(a) == RowText(b) <==> a == b
  {
    JoinIdentity(a.day + ":", b.day + ":", a.key, b.key);
    JoinIdentity(a.day, b.day, ":", ":");
  }

  lemma SpanIdentity(span: Window, t: Time, u: Time, key: string)
    ensures RowOf(key, span, t) == RowOf(key, span, u) <==> WindowIndex(span, t) == WindowIndex(span, u)
  {
    DayKeyOrder(t, u);
    match span
    case PerDay =>
    case PerHour =>
      HourKeyIdentity(t, u);
      JoinIdentity(key + "@", key + "@", HourKey(t), HourKey(u));
      ClockArithmetic(t);
      ClockArithmetic(u);
    case PerMinute =>
      MinuteKeyIdentity(t, u);
      JoinIdentity(key + "@", key + "@", MinuteKey(t), MinuteKey(u));
      ClockArithmetic(t);
      ClockArithmetic(u);
  }

  /**
   * Row identity is exactly the window: for raw keys without `@`, two requests share a row if and
   * only if they have the same key, the same kind of window and the same aligned UTC window.
   */
  lemma RowIsWindow(k: string, v: Window, t: Time, l: string, w: Window, u: Time)
    requires '@' !in k && '@' !in l
    ensures RowOf(k, v, t) == RowOf(l, w, u) <==> k == l && v == w && WindowIndex(v, t) == WindowIndex(w, u)
  {
    if v == w && k == l {
      SpanIdentity(v, t, u, k);
    } else if v.PerDay? && w.PerDay? {
    } else if v.PerDay? {
      assert StoredKey(l, w, u)[|l|] == '@';
    } else if w.PerDay? {
      assert StoredKey(k, v, t)[|k|] == '@';
    } else {
      var x := if v.PerHour? then HourKey(t) else MinuteKey(t);
      var y := if w.PerHour? then HourKey(u) else MinuteKey(u);
      assert |x| == (if v.PerHour? then 13 else 16) && |y| == (if w.PerHour? then 13 else 16);
      SplitAtMark(k, l, '@', x, y);
      assert StoredKey(k, v, t) == k + ['@'] + x && StoredKey(l, w, u) == l + ['@'] + y;
    }
  }

  // Rolling over

  /** A JavaScript `Date`: one instant, moved by the UTC setters. */
  class UtcDate {
    var time: int

    constructor (t: int)
      ensures time == t
    {
      time := t;
    }

    /** `setUTCSeconds(seconds, ms)`. */
    method SetSeconds(seconds: int, ms: int)
      modifies this
      ensures time == old(time / MS_PER_DAY) * MS_PER_DAY
                      + MakeTime(HourOf(old(time)), MinuteOf(old(time)), seconds, ms)
    {
      time := time / MS_PER_DAY * MS_PER_DAY + MakeTime(HourOf(time), MinuteOf(time), seconds, ms);
    }

    /** `setUTCMinutes(minutes)`, keeping seconds and milliseconds. */
    method SetMinutes(minutes: int)
      modifies this
      ensures time == old(time) + (minutes - MinuteOf(old(time))) * MS_PER_MINUTE
    {
      ClockArithmetic(time);
      time := time / MS_PER_DAY * MS_PER_DAY + MakeTime(HourOf(time), minutes, SecondOf(time), MsOf(time));
    }

    /** `setUTCMinutes(minutes, seconds, ms)`. */
    method SetMinutesExactly(minutes: int, seconds: int, ms: int)
      modifies this
      ensures time == old(time / MS_PER_DAY) * MS_PER_DAY + MakeTime(HourOf(old(time)), minutes, seconds, ms)
    {
      time := time / MS_PER_DAY * MS_PER_DAY + MakeTime(HourOf(time), minutes, seconds, ms);
    }

    /** `setUTCHours(hours)`, keeping minutes, seconds and milliseconds. */
    method SetHours(hours: int)
      modifies this
      ensures time == old(time) + (hours - HourOf(old(time))) * MS_PER_HOUR
    {
      ClockArithmetic(time);
      time := time / MS_PER_DAY * MS_PER_DAY + MakeTime(hours, MinuteOf(time), SecondOf(time), MsOf(time));
    }

    /** `setUTCHours(hours, minutes, seconds, ms)`. */
    method SetHoursExactly(hours: int, minutes: int, seconds: int, ms: int)
      modifies this
      ensures time == old(time / MS_PER_DAY) * MS_PER_DAY + MakeTime(hours, minutes, seconds, ms)
    {
      time := time / MS_PER_DAY * MS_PER_DAY + MakeTime(hours, minutes, seconds, ms);
    }

    /** `setUTCDate(date)`: a date past the month's end runs into the next month. */
    method SetDate(date: int)
      requires FIRST_DAY * MS_PER_DAY <= time < END_DAY * MS_PER_DAY
      modifies this
      ensures time == old(time) + (date - CivilOf(DayOf(old(time))).date) * MS_PER_DAY
    {
      var c := CivilOf(DayOf(time));
      time := MakeDay(c.year, c.month, date) * MS_PER_DAY + TimeWithinDay(time);
    }
  }

  /** `nextReset`, through the setters: it lands on the end of the window that holds `now`. */
  method NextReset(now: Time, span: Window) returns (at: int)
    ensures at == WindowEnd(span, now)
  {
    var next := new UtcDate(now);
    ClockArithmetic(now);
    if span == PerMinute {
      next.SetSeconds(0, 0);
      var minute := MinuteOf(next.time);
      next.SetMinutes(minute + 1);
      return next.time;
    }
    if span == PerHour {
      next.SetMinutesExactly(0, 0, 0);
      var hour := HourOf(next.time);
      next.SetHours(hour + 1);
      return next.time;
    }
    next.SetHoursExactly(0, 0, 0, 0);
    var date := CivilOf(DayOf(next.time)).date;
    next.SetDate(date + 1);
    return next.time;
  }

  /** The reset is the least time after `now` at which the request's row changes. */
  lemma ResetIsFirstRowChange(request: CounterRequest, now: Time)
    ensures now < WindowEnd(request.Span(), now)
    ensures forall t: Time | now <= t < WindowEnd(request.Span(), now) :: CounterRow(request, t) == CounterRow(request, now)
    ensures forall t: Time | WindowEnd(request.Span(), now) <= t :: CounterRow(request, t) != CounterRow(request, now)
  {
    var span := request.Span();
    WindowBounds(span, now);
    forall t: Time | now <= t
      ensures t < WindowEnd(span, now) ==> CounterRow(request, t) == CounterRow(request, now)
      ensures WindowEnd(span, now) <= t ==> CounterRow(request, t) != CounterRow(request, now)
    {
      WindowBounds(span, t);
      SpanIdentity(span, t, now, request.key);
      if t < WindowEnd(span, now) {
        SameWindow(span, now, t);
      }
    }
  }

  lemma WindowBounds(span: Window, t: int)
    ensures WindowEnd(span, t) - WindowMs(span) <= t < WindowEnd(span, t)
  {
  }

  lemma SameWindow(span: Window, t: int, u: int)
    requires t <= u < WindowEnd(span, t)
    ensures WindowIndex(span, t) == WindowIndex(span, u)
  {
  }

  /** An instant no earlier than two days before a sweep has its row on a day the sweep keeps. */
  lemma RecentRowsOutliveTheSweep(request: CounterRequest, t: Time, sweep: Time)
    requires FIRST_DAY + RETENTION_DAYS <= DayOf(sweep)
    requires sweep - RETENTION_DAYS * MS_PER_DAY <= t
    ensures !Less(CounterRow(request, t).day, RetentionCutoff(sweep))
  {
    DayKeyOrder(t, sweep - RETENTION_DAYS * MS_PER_DAY);
  }
}
