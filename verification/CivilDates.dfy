/** What the texts of `toISOString` say: the fields of a date and a time, read back as numbers. */
module CivilDates {
  import opened Text
  import opened Calendar
  import opened CounterRows

  // Reading

  /** The number that decimal digits stand for. */
  function NumberIn(s: string): int {
    if s == "" then 0 else 10 * NumberIn(s[..|s| - 1]) + (s[|s| - 1] as int - '0' as int)
  }

  lemma {:induction false} PadReads(n: nat, w: nat)
    requires n < Pow10(w)
    ensures NumberIn(Pad(n, w)) == n
  {
    if w > 0 {
      PadReads(n / 10, w - 1);
      assert Pad(n, w)[..w - 1] == Pad(n / 10, w - 1);
    }
  }

  lemma PadReadsShort(n: nat, w: nat)
    requires (w == 2 && n < 100) || (w == 3 && n < 1000) || (w == 4 && n < 10000)
    ensures NumberIn(Pad(n, w)) == n && forall k | 0 <= k < w :: '0' <= Pad(n, w)[k] <= '9'
  {
    PowersOfTen();
    PadReads(n, w);
    PadIsDigits(n, w);
    assert forall k | 0 <= k < w :: Pad(n, w)[k] in Pad(n, w);
  }

  // Months

  /** The day of the year on which month `m` starts, from 0 for January to 12 for the year's end, in closed form. */
  function MonthOpening(leap: bool, m: nat): int {
    if m == 0 then 0
    else if m == 1 then 31
    else 59 + (if leap then 1 else 0) + (153 * (m - 2) + 2) / 5
  }

  lemma MonthStep(leap: bool, m: nat)
    requires m < 12
    ensures MonthOpening(leap, m + 1) == MonthOpening(leap, m) + MonthLength(leap, m)
  {
    if m < 6 {
      FirstMonths(leap, m);
    } else {
      LastMonths(leap, m);
    }
  }

  lemma FirstMonths(leap: bool, m: nat)
    requires m < 6
    ensures MonthOpening(leap, m + 1) == MonthOpening(leap, m) + MonthLength(leap, m)
  {
    assert m == 0 || m == 1 || m == 2 || m == 3 || m == 4 || m == 5;
  }

  lemma LastMonths(leap: bool, m: nat)
    requires 6 <= m < 12
    ensures MonthOpening(leap, m + 1) == MonthOpening(leap, m) + MonthLength(leap, m)
  {
    assert m == 6 || m == 7 || m == 8 || m == 9 || m == 10 || m == 11;
  }

  /** Months added up one by one start where the closed form says. */
  lemma {:induction false} MonthStartClosedForm(leap: bool, m: nat)
    requires m <= 12
    ensures MonthStart(leap, m) == MonthOpening(leap, m)
  {
    if m > 0 {
      MonthStartClosedForm(leap, m - 1);
      MonthStep(leap, m - 1);
    }
  }

  // Days

  /** A year of 366 days, by the closed form of its start. */
  predicate IsLong(y: nat) {
    ClosedForm(y + 1) - ClosedForm(y) == 366
  }

  lemma LongIsLeap(y: nat)
    ensures IsLong(y) <==> InLeapYear(y)
  {
    ClosedFormStep(y, y + 1);
  }

  /** The date of a day, with the month from 1 to 12. */
  predicate IsDate(d: int, y: int, m: int, date: int) {
    && 0 <= y <= 9999 && 1 <= m <= 12 && 1 <= date
    && MonthOpening(IsLong(y), m - 1) + date <= MonthOpening(IsLong(y), m)
    && d == ClosedForm(y) + MonthOpening(IsLong(y), m - 1) + date - 1
  }

  /** The date of a day, by years and months added up one by one. */
  predicate IsFound(d: int, y: nat, m: nat, date: nat) {
    && y <= 9999 && 1 <= m <= 12 && 1 <= date <= 31
    && d == DayFromYear(y) + MonthStart(InLeapYear(y), m - 1) + date - 1
    && MonthStart(InLeapYear(y), m - 1) + date <= MonthStart(InLeapYear(y), m)
  }

  /** The date found lies in its month. */
  lemma CivilEnds(d: Day, c: Civil)
    requires c == CivilOf(d)
    ensures MonthStart(InLeapYear(c.year), c.month) + c.date <= MonthStart(InLeapYear(c.year), c.month + 1)
  {
    var leap := InLeapYear(YearOf(d));
    var m := MonthFrom(leap, DayWithinYear(d), 0);
    assert c.date == DayWithinYear(d) - MonthStart(leap, m) + 1;
  }

  lemma CivilIsFound(d: Day, c: Civil)
    requires c == CivilOf(d)
    ensures Found(d, c)
  {
    CivilEnds(d, c);
  }

  ghost predicate Found(d: int, c: Civil) {
    IsFound(d, c.year, c.month + 1, c.date)
  }

  lemma TextOf(d: Day, c: Civil)
    requires c == CivilOf(d)
    ensures IsoDay(d) == CivilText(c)
  {
  }

  /** What the search for year and month finds. */
  lemma CivilFound(d: Day) returns (c: Civil)
    ensures IsoDay(d) == CivilText(c) && Found(d, c)
  {
    c := CivilOf(d);
    TextOf(d, c);
    CivilIsFound(d, c);
  }

  lemma FoundIsDate(d: int, y: nat, m: nat, date: nat)
    ensures IsFound(d, y, m, date) ==> IsDate(d, y, m, date)
  {
    if 1 <= m <= 12 {
      DayFromYearClosedForm(y);
      LongIsLeap(y);
      MonthStartClosedForm(InLeapYear(y), m - 1);
      MonthStartClosedForm(InLeapYear(y), m);
    }
  }

  predicate AllDigits(s: string) {
    forall k | 0 <= k < |s| :: '0' <= s[k] <= '9'
  }

  lemma DateFields(y: string, m: string, d: string)
    requires |y| == 4 && |m| == 2 && |d| == 2
    ensures var s := y + ("-" + (m + ("-" + d)));
            |s| == 10 && s[..4] == y && s[4] == '-' && s[5..7] == m && s[7] == '-' && s[8..] == d
  {
  }

  /** `YYYY-MM-DD`: the year, month and date on which day `d` falls. */
  predicate IsDateText(d: int, s: string) {
    && |s| == 10 && s[4] == '-' && s[7] == '-'
    && AllDigits(s[..4]) && AllDigits(s[5..7]) && AllDigits(s[8..])
    && IsDate(d, NumberIn(s[..4]), NumberIn(s[5..7]), NumberIn(s[8..]))
  }

  lemma FieldsAreDate(d: int, y: nat, m: nat, date: nat)
    requires IsDate(d, y, m, date) && date <= 31
    ensures IsDateText(d, Pad(y, 4) + ("-" + (Pad(m, 2) + ("-" + Pad(date, 2)))))
  {
    PadReadsShort(y, 4);
    PadReadsShort(m, 2);
    PadReadsShort(date, 2);
    DateFields(Pad(y, 4), Pad(m, 2), Pad(date, 2));
  }

  lemma FoundTextIsDate(d: Day, c: Civil)
    requires Found(d, c)
    ensures IsDateText(d, CivilText(c))
  {
    FoundIsDate(d, c.year, c.month + 1, c.date);
    FieldsAreDate(d, c.year, c.month + 1, c.date);
  }

  /** The text of a day is its date, by the closed forms of years and months alone. */
  lemma IsoDayIsDate(d: Day)
    ensures IsDateText(d, IsoDay(d))
  {
    var c := CivilFound(d);
    FoundTextIsDate(d, c);
  }

  // No other date

  lemma OpeningsIncrease(leap: bool, i: nat, j: nat)
    requires i <= j <= 12
    ensures MonthOpening(leap, i) <= MonthOpening(leap, j)
  {
    MonthStartClosedForm(leap, i);
    MonthStartClosedForm(leap, j);
    MonthsIncrease(leap, i, j);
  }

  lemma DateInYear(d: int, y: nat, m: nat, date: nat)
    requires IsDate(d, y, m, date)
    ensures DayFromYear(y) <= d < DayFromYear(y + 1)
  {
    OpeningsIncrease(IsLong(y), 0, m - 1);
    OpeningsIncrease(IsLong(y), m, 12);
    DayFromYearClosedForm(y);
    DayFromYearClosedForm(y + 1);
    LongIsLeap(y);
  }

  lemma SameYear(d: int, y: nat, z: nat)
    requires DayFromYear(y) <= d < DayFromYear(y + 1) && DayFromYear(z) <= d < DayFromYear(z + 1)
    ensures y == z
  {
    if y < z {
      YearsIncrease(y + 1, z);
    } else if z < y {
      YearsIncrease(z + 1, y);
    }
  }

  lemma SameMonth(k: int, leap: bool, m: nat, n: nat)
    requires 1 <= m <= 12 && MonthOpening(leap, m - 1) < k <= MonthOpening(leap, m)
    requires 1 <= n <= 12 && MonthOpening(leap, n - 1) < k <= MonthOpening(leap, n)
    ensures m == n
  {
    if m < n {
      OpeningsIncrease(leap, m, n - 1);
    } else if n < m {
      OpeningsIncrease(leap, n, m - 1);
    }
  }

  /** A day has one date. */
  lemma DateIsUnique(d: int, y: nat, m: nat, date: nat, z: nat, n: nat, other: nat)
    requires IsDate(d, y, m, date) && IsDate(d, z, n, other)
    ensures y == z && m == n && date == other
  {
    DateInYear(d, y, m, date);
    DateInYear(d, z, n, other);
    SameYear(d, y, z);
    SameMonth(d - ClosedForm(y) + 1, IsLong(y), m, n);
  }

  // Times of day

  lemma ClockFields(h: string, m: string, s: string, ms: string)
    requires |h| == 2 && |m| == 2 && |s| == 2 && |ms| == 3
    ensures var t := "T" + h + (":" + m + (":" + s + "." + ms + "Z"));
            && |t| == 14 && t[0] == 'T' && t[1..3] == h && t[3] == ':' && t[4..6] == m && t[6] == ':'
            && t[7..9] == s && t[9] == '.' && t[10..13] == ms && t[13] == 'Z'
  {
  }

  lemma TimeAddsUp(t: Time)
    ensures t == 86_400_000 * DayOf(t) + 3_600_000 * HourOf(t) + 60_000 * MinuteOf(t) + 1_000 * SecondOf(t) + MsOf(t)
  {
    ClockArithmetic(t);
  }

  function ClockText(t: Time): string {
    HourText(t) + (MinuteText(t) + SecondText(t))
  }

  /** `THH:MM:SS.mmmZ` is the time of day, and the days, hours, minutes, seconds and milliseconds add up to the moment. */
  lemma ClockIsTime(t: Time)
    ensures var c := ClockText(t);
            && |c| == 14 && c[0] == 'T' && c[3] == ':' && c[6] == ':' && c[9] == '.' && c[13] == 'Z'
            && 0 <= NumberIn(c[1..3]) < 24 && 0 <= NumberIn(c[4..6]) < 60
            && 0 <= NumberIn(c[7..9]) < 60 && 0 <= NumberIn(c[10..13]) < 1000
            && t == 86_400_000 * DayOf(t) + 3_600_000 * NumberIn(c[1..3]) + 60_000 * NumberIn(c[4..6])
                    + 1_000 * NumberIn(c[7..9]) + NumberIn(c[10..13])
  {
    PadReadsShort(HourOf(t), 2);
    PadReadsShort(MinuteOf(t), 2);
    PadReadsShort(SecondOf(t), 2);
    PadReadsShort(MsOf(t), 3);
    ClockFields(Pad(HourOf(t), 2), Pad(MinuteOf(t), 2), Pad(SecondOf(t), 2), Pad(MsOf(t), 3));
    TimeAddsUp(t);
  }

  /** The texts behind the rows of a request: `dayKey`, `hourKey` and `minuteKey` are the front of the moment's text. */
  lemma KeysAreFronts(t: Time)
    ensures |DayKey(t)| == 10 && DayKey(t) == IsoDay(DayOf(t))
    ensures |HourKey(t)| == 13 && HourKey(t) == IsoDay(DayOf(t)) + ClockText(t)[..3]
    ensures |MinuteKey(t)| == 16 && MinuteKey(t) == IsoDay(DayOf(t)) + ClockText(t)[..6]
  {
    KeyTexts(t);
    FrontOfThree(HourText(t), MinuteText(t), SecondText(t));
  }

  lemma FrontOfThree(a: string, b: string, c: string)
    ensures (a + (b + c))[..|a|] == a && (a + (b + c))[..|a| + |b|] == a + b
  {
  }
}
