/** The UTC calendar behind `Date`, in the terms of ECMA-262 (section 21.4.1), for the years 0 to 9999. */
module Calendar {
  import opened Text

  const MS_PER_SECOND := 1_000
  const MS_PER_MINUTE := 60_000
  const MS_PER_HOUR := 3_600_000
  const MS_PER_DAY := 86_400_000

  /** Day numbers count from 1970-01-01; these are 0000-01-01 and 10000-01-01. */
  const FIRST_DAY := -719_528
  const END_DAY := 2_932_897

  type Day = d: int | FIRST_DAY <= d < END_DAY witness 0

  /** Milliseconds since 1970-01-01T00:00Z whose ISO text has a four-digit year. */
  type Time = t: int | FIRST_DAY * MS_PER_DAY <= t < END_DAY * MS_PER_DAY witness 0

  function DayOf(t: Time): Day {
    t / MS_PER_DAY
  }

  function TimeWithinDay(t: int): nat {
    t % MS_PER_DAY
  }

  function HourOf(t: int): (h: nat)
    ensures h < 24
  {
    TimeWithinDay(t) / MS_PER_HOUR
  }

  function MinuteOf(t: int): (m: nat)
    ensures m < 60
  {
    TimeWithinDay(t) / MS_PER_MINUTE % 60
  }

  function SecondOf(t: int): (s: nat)
    ensures s < 60
  {
    TimeWithinDay(t) / MS_PER_SECOND % 60
  }

  function MsOf(t: int): (ms: nat)
    ensures ms < 1000
  {
    t % MS_PER_SECOND
  }

  predicate InLeapYear(y: int) {
    y % 4 == 0 && (y % 100 != 0 || y % 400 == 0)
  }

  function YearLength(y: int): (n: nat)
    ensures n > 0
  {
    if InLeapYear(y) then 366 else 365
  }

  /** The day number of January 1st, as the sum of the years before it. */
  function DayFromYear(y: nat): int {
    if y == 0 then FIRST_DAY else DayFromYear(y - 1) + YearLength(y - 1)
  }

  /** The same in closed form, as ECMA-262 has it: every fourth, hundredth and four hundredth year counts. */
  function ClosedForm(y: nat): int {
    365 * (y - 1970) + (y - 1969) / 4 - (y - 1901) / 100 + (y - 1601) / 400
  }

  lemma EveryFourth(x: nat)
    ensures (x - 1968) / 4 - (x - 1969) / 4 == if x % 4 == 0 then 1 else 0
  {
  }

  lemma EveryHundredth(x: nat)
    ensures (x - 1900) / 100 - (x - 1901) / 100 == if x % 100 == 0 then 1 else 0
  {
  }

  lemma EveryFourHundredth(x: nat)
    ensures (x - 1600) / 400 - (x - 1601) / 400 == if x % 400 == 0 then 1 else 0
  {
  }

  lemma Multiples(x: nat)
    ensures x % 400 == 0 ==> x % 100 == 0
    ensures x % 100 == 0 ==> x % 4 == 0
  {
    if x % 400 == 0 {
      assert x == 100 * (4 * (x / 400));
    }
    if x % 100 == 0 {
      assert x == 4 * (25 * (x / 100));
    }
  }

  lemma LeapsAddUp(x: nat, fours: int, hundreds: int, fourHundreds: int)
    requires fours == if x % 4 == 0 then 1 else 0
    requires hundreds == if x % 100 == 0 then 1 else 0
    requires fourHundreds == if x % 400 == 0 then 1 else 0
    ensures YearLength(x) == 365 + fours - hundreds + fourHundreds
  {
    Multiples(x);
  }

  lemma ClosedFormStep(x: nat, y: nat)
    requires y == x + 1
    ensures ClosedForm(y) == ClosedForm(x) + YearLength(x)
  {
    EveryFourth(x);
    EveryHundredth(x);
    EveryFourHundredth(x);
    LeapsAddUp(x, (x - 1968) / 4 - (x - 1969) / 4, (x - 1900) / 100 - (x - 1901) / 100,
               (x - 1600) / 400 - (x - 1601) / 400);
  }

  lemma {:induction false} DayFromYearClosedForm(y: nat)
    ensures DayFromYear(y) == ClosedForm(y)
  {
    if y > 0 {
      DayFromYearClosedForm(y - 1);
      ClosedFormStep(y - 1, y);
    }
  }

  /** The largest year that starts no later than the day, searched upwards from `y`. */
  function YearFrom(d: Day, y: nat): (r: nat)
    requires y <= 9999 && DayFromYear(y) <= d
    ensures y <= r <= 9999 && DayFromYear(r) <= d < DayFromYear(r + 1)
    decreases 9999 - y
  {
    DayFromYearClosedForm(10000);
    if d < DayFromYear(y + 1) then y else YearFrom(d, y + 1)
  }

  function YearOf(d: Day): (r: nat)
    ensures r <= 9999 && DayFromYear(r) <= d < DayFromYear(r + 1)
  {
    YearFrom(d, 0)
  }

  function MonthLength(leap: bool, m: nat): (n: nat)
    ensures n > 0
  {
    if m == 1 then if leap then 29 else 28
    else if m == 3 || m == 5 || m == 8 || m == 10 then 30
    else 31
  }

  /** The day of the year on which a month (0 to 11, or 12 for the year's end) starts. */
  function MonthStart(leap: bool, m: nat): nat {
    if m == 0 then 0 else MonthStart(leap, m - 1) + MonthLength(leap, m - 1)
  }

  lemma MonthsFillTheYear(leap: bool)
    ensures MonthStart(leap, 12) == if leap then 366 else 365
  {
    assert MonthStart(leap, 1) == 31;
    assert MonthStart(leap, 2) == if leap then 60 else 59;
    assert MonthStart(leap, 4) == MonthStart(leap, 2) + 61;
    assert MonthStart(leap, 6) == MonthStart(leap, 4) + 61;
    assert MonthStart(leap, 8) == MonthStart(leap, 6) + 62;
    assert MonthStart(leap, 10) == MonthStart(leap, 8) + 61;
  }

  function MonthFrom(leap: bool, k: nat, m: nat): (r: nat)
    requires m < 12 && MonthStart(leap, m) <= k < MonthStart(leap, 12)
    ensures m <= r < 12 && MonthStart(leap, r) <= k < MonthStart(leap, r + 1)
    decreases 12 - m
  {
    if k < MonthStart(leap, m + 1) then m else MonthFrom(leap, k, m + 1)
  }

  /** A calendar date: month 0 to 11, date 1 to 31. */
  datatype Civil = Civil(year: nat, month: nat, date: nat)

  function DayWithinYear(d: Day): (k: nat)
    ensures k < MonthStart(InLeapYear(YearOf(d)), 12)
  {
    MonthsFillTheYear(InLeapYear(YearOf(d)));
    d - DayFromYear(YearOf(d))
  }

  function CivilOf(d: Day): (c: Civil)
    ensures c.year <= 9999 && c.month < 12 && 1 <= c.date <= 31
    ensures d == MakeDay(c.year, c.month, c.date)
  {
    var y := YearOf(d);
    var k := DayWithinYear(d);
    var m := MonthFrom(InLeapYear(y), k, 0);
    Civil(y, m, k - MonthStart(InLeapYear(y), m) + 1)
  }

  /** The day number of a date, which may overflow its month. */
  function MakeDay(y: nat, m: nat, date: int): int {
    DayFromYear(y) + MonthStart(InLeapYear(y), m) + date - 1
  }

  function MakeTime(h: int, m: int, s: int, ms: int): int {
    h * MS_PER_HOUR + m * MS_PER_MINUTE + s * MS_PER_SECOND + ms
  }

  predicate CivilLess(a: Civil, b: Civil) {
    a.year < b.year || (a.year == b.year && (a.month < b.month || (a.month == b.month && a.date < b.date)))
  }

  lemma {:induction false} YearsIncrease(y: nat, z: nat)
    requires y <= z
    ensures DayFromYear(y) <= DayFromYear(z)
    decreases z - y
  {
    if y < z {
      YearsIncrease(y + 1, z);
    }
  }

  lemma YearMonotone(a: Day, b: Day)
    requires a < b
    ensures YearOf(a) <= YearOf(b)
  {
    var y, z := YearOf(a), YearOf(b);
    if z < y {
      YearsIncrease(z + 1, y);
      assert false;
    }
  }

  lemma MonthMonotone(leap: bool, i: nat, j: nat)
    requires i < j < MonthStart(leap, 12)
    ensures MonthFrom(leap, i, 0) <= MonthFrom(leap, j, 0)
  {
    var m, n := MonthFrom(leap, i, 0), MonthFrom(leap, j, 0);
    if n < m {
      MonthsIncrease(leap, n + 1, m);
      assert false;
    }
  }

  lemma {:induction false} MonthsIncrease(leap: bool, i: nat, j: nat)
    requires i <= j
    ensures MonthStart(leap, i) <= MonthStart(leap, j)
  {
    if i < j {
      MonthsIncrease(leap, i, j - 1);
    }
  }

  lemma CivilMonotone(a: Day, b: Day)
    requires a < b
    ensures CivilLess(CivilOf(a), CivilOf(b))
  {
    YearMonotone(a, b);
    if YearOf(a) == YearOf(b) {
      MonthMonotone(InLeapYear(YearOf(a)), DayWithinYear(a), DayWithinYear(b));
    }
  }

  /** The three fields of an ISO date, as one comparison key. */
  function CivilText(c: Civil): string {
    Pad(c.year, 4) + ("-" + (Pad(c.month + 1, 2) + ("-" + Pad(c.date, 2))))
  }

  /** `YYYY-MM-DD`. */
  function IsoDay(d: Day): (s: string)
    ensures |s| == 10
  {
    CivilText(CivilOf(d))
  }

  /** `toISOString`: `YYYY-MM-DDTHH:MM:SS.mmmZ`. */
  function IsoText(t: Time): (s: string)
    ensures |s| == 24
  {
    IsoDay(DayOf(t)) + (HourText(t) + (MinuteText(t) + SecondText(t)))
  }

  function HourText(t: Time): (s: string)
    ensures |s| == 3
  {
    "T" + Pad(HourOf(t), 2)
  }

  function MinuteText(t: Time): (s: string)
    ensures |s| == 3
  {
    ":" + Pad(MinuteOf(t), 2)
  }

  function SecondText(t: Time): (s: string)
    ensures |s| == 8
  {
    ":" + Pad(SecondOf(t), 2) + "." + Pad(MsOf(t), 3) + "Z"
  }

  lemma HoursFromDays(d: int, r: nat)
    requires r < MS_PER_DAY
    ensures (d * MS_PER_DAY + r) / MS_PER_HOUR == 24 * d + r / MS_PER_HOUR && r / MS_PER_HOUR < 24
  {
  }

  lemma MinutesFromDays(d: int, r: nat)
    requires r < MS_PER_DAY
    ensures (d * MS_PER_DAY + r) / MS_PER_MINUTE == 1440 * d + r / MS_PER_MINUTE && r / MS_PER_MINUTE < 1440
  {
  }

  lemma MillisecondsFromDays(d: int, r: nat)
    ensures (d * MS_PER_DAY + r) % MS_PER_SECOND == r % MS_PER_SECOND
  {
  }

  lemma MinutesFromHours(r: nat)
    ensures r / MS_PER_MINUTE == 60 * (r / MS_PER_HOUR) + r / MS_PER_MINUTE % 60
  {
    var m := r / MS_PER_MINUTE;
    assert m / 60 == r / MS_PER_HOUR;
  }

  lemma SecondsFromMinutes(r: nat)
    ensures r / MS_PER_SECOND == 60 * (r / MS_PER_MINUTE) + r / MS_PER_SECOND % 60
    ensures r == MS_PER_SECOND * (r / MS_PER_SECOND) + r % MS_PER_SECOND
  {
    var s := r / MS_PER_SECOND;
    assert s / 60 == r / MS_PER_MINUTE;
  }

  lemma ClockParts(t: int, d: int, r: nat)
    requires t == d * MS_PER_DAY + r && r < MS_PER_DAY
    ensures t / MS_PER_DAY == d && TimeWithinDay(t) == r
    ensures t / MS_PER_HOUR == 24 * d + HourOf(t)
    ensures t / MS_PER_MINUTE == 60 * (t / MS_PER_HOUR) + MinuteOf(t)
    ensures r / MS_PER_MINUTE == 60 * HourOf(t) + MinuteOf(t)
    ensures r / MS_PER_SECOND == 60 * (r / MS_PER_MINUTE) + SecondOf(t)
    ensures r == MS_PER_SECOND * (r / MS_PER_SECOND) + MsOf(t)
  {
    HoursFromDays(d, r);
    MinutesFromDays(d, r);
    MillisecondsFromDays(d, r);
    MinutesFromHours(r);
    SecondsFromMinutes(r);
  }

  /** Hours and minutes count on from day to day without a gap. */
  lemma ClockArithmetic(t: int)
    ensures t / MS_PER_HOUR == 24 * (t / MS_PER_DAY) + HourOf(t)
    ensures t / MS_PER_MINUTE == 60 * (t / MS_PER_HOUR) + MinuteOf(t)
    ensures t / MS_PER_HOUR / 24 == t / MS_PER_DAY && t / MS_PER_MINUTE / 1440 == t / MS_PER_DAY
    ensures t == t / MS_PER_DAY * MS_PER_DAY + MakeTime(HourOf(t), MinuteOf(t), SecondOf(t), MsOf(t))
    ensures t / MS_PER_MINUTE * MS_PER_MINUTE == t / MS_PER_DAY * MS_PER_DAY + MakeTime(HourOf(t), MinuteOf(t), 0, 0)
    ensures t / MS_PER_HOUR * MS_PER_HOUR == t / MS_PER_DAY * MS_PER_DAY + MakeTime(HourOf(t), 0, 0, 0)
  {
    var d, r := t / MS_PER_DAY, t % MS_PER_DAY;
    ClockParts(t, d, r);
    DayFromParts(d, HourOf(t), MinuteOf(t), t / MS_PER_HOUR, t / MS_PER_MINUTE);
  }

  lemma DayFromParts(d: int, h: nat, m: nat, hours: int, minutes: int)
    requires h < 24 && m < 60 && hours == 24 * d + h && minutes == 60 * hours + m
    ensures hours / 24 == d && minutes / 1440 == d
  {
  }

  lemma PowersOfTen()
    ensures Pow10(2) == 100 && Pow10(3) == 1000 && Pow10(4) == 10000
  {
    assert Pow10(1) == 10 * Pow10(0);
    assert Pow10(2) == 10 * Pow10(1);
    assert Pow10(3) == 10 * Pow10(2);
  }

  /** ISO dates order as text exactly as their days do. */
  lemma IsoDayOrder(a: Day, b: Day)
    ensures Less(IsoDay(a), IsoDay(b)) <==> a < b
    ensures IsoDay(a) == IsoDay(b) <==> a == b
  {
    LessIrreflexive(IsoDay(a));
    if a < b {
      IsoDayMonotone(a, b);
    } else if b < a {
      IsoDayMonotone(b, a);
      if Less(IsoDay(a), IsoDay(b)) {
        LessTransitive(IsoDay(a), IsoDay(b), IsoDay(a));
      }
    }
  }

  lemma CivilTextMonotone(c: Civil, e: Civil)
    requires c.year <= 9999 && e.year <= 9999 && c.month < 12 && e.month < 12 && c.date <= 31 && e.date <= 31
    requires CivilLess(c, e)
    ensures Less(CivilText(c), CivilText(e))
  {
    PowersOfTen();
    var dc, de := "-" + Pad(c.date, 2), "-" + Pad(e.date, 2);
    var mc, me := Pad(c.month + 1, 2) + dc, Pad(e.month + 1, 2) + de;
    if c.year < e.year {
      PadMonotone(c.year, e.year, 4);
      LessByHead(Pad(c.year, 4), Pad(e.year, 4), "-" + mc, "-" + me);
    } else {
      LessByTail(Pad(c.year, 4), "-" + mc, "-" + me);
      LessByTail("-", mc, me);
      if c.month < e.month {
        PadMonotone(c.month + 1, e.month + 1, 2);
        LessByHead(Pad(c.month + 1, 2), Pad(e.month + 1, 2), dc, de);
      } else {
        PadMonotone(c.date, e.date, 2);
        LessByTail(Pad(c.month + 1, 2), dc, de);
        LessByTail("-", Pad(c.date, 2), Pad(e.date, 2));
      }
    }
  }

  lemma IsoDayMonotone(a: Day, b: Day)
    requires a < b
    ensures Less(IsoDay(a), IsoDay(b))
  {
    CivilMonotone(a, b);
    CivilTextMonotone(CivilOf(a), CivilOf(b));
  }
}
