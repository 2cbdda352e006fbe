/** The two independently written calendar conversions: `civil_from_days` of
    `xtask/src/provenance.rs`, and the day count inside `iso8601_to_unix` of
    `xtask/src/release_authority.rs` with its `days_in_month`. */
module Calendar {

  datatype Date = Date(year: int, month: int, day: int)

  predicate IsLeap(year: int) {
    (year % 4 == 0 && year % 100 != 0) || year % 400 == 0
  }

  function DaysInMonth(year: int, month: int): int {
    match month
    case 1 | 3 | 5 | 7 | 8 | 10 | 12 => 31
    case 4 | 6 | 9 | 11 => 30
    case 2 => if IsLeap(year) then 29 else 28
    case _ => 0
  }

  predicate IsDate(date: Date) {
    1 <= date.month <= 12 && 1 <= date.day <= DaysInMonth(date.year, date.month)
  }

  // ----- The reference: one day at a time -----------------------------------------

  function NextDay(date: Date): Date {
    if date.day < DaysInMonth(date.year, date.month) then Date(date.year, date.month, date.day + 1)
    else if date.month < 12 then Date(date.year, date.month + 1, 1)
    else Date(date.year + 1, 1, 1)
  }

  const EPOCH := Date(1970, 1, 1)

  function DateAfter(days: nat): (date: Date)
    ensures IsDate(date)
  {
    if days == 0 then EPOCH else NextDay(DateAfter(days - 1))
  }

  // ----- The closed forms -------------------------------------------------------------

  /** `civil_from_days`, for the non-negative day counts a `u64` epoch gives. */
  function CivilFromDays(days: nat): Date {
    var z := days + 719_468;
    var era := z / 146_097;
    var doe := z - era * 146_097;
    var yoe := YearOfEra(doe);
    var y := yoe + era * 400;
    var doy := doe - (365 * yoe + yoe / 4 - yoe / 100);
    var mp := (5 * doy + 2) / 153;
    var d := doy - (153 * mp + 2) / 5 + 1;
    var m := if mp < 10 then mp + 3 else mp - 9;
    Date(if m <= 2 then y + 1 else y, m, d)
  }

  function YearOfEra(doe: int): int {
    (doe - doe / 1460 + doe / 36_524 - doe / 146_096) / 365
  }

  /** Days before the March-based year `y`, counted from 0000-03-01. */
  function DaysBeforeYear(y: int): int {
    var era := y / 400;
    var yoe := y % 400;
    era * 146_097 + (yoe * 365 + yoe / 4 - yoe / 100)
  }

  function MarchYear(date: Date): int {
    if date.month <= 2 then date.year - 1 else date.year
  }

  function MarchMonth(date: Date): int {
    if date.month > 2 then date.month - 3 else date.month + 9
  }

  function MarchDay(date: Date): int {
    (153 * MarchMonth(date) + 2) / 5 + date.day - 1
  }

  /** The day count of `iso8601_to_unix`. */
  function DaysFromCivil(date: Date): int {
    DaysBeforeYear(MarchYear(date)) + MarchDay(date) - 719_468
  }

  // ----- Stepping ------------------------------------------------------------------------

  lemma {:induction false} MultipleIsLarge(d: int, x: int)
    requires d > 0 && x > 0
    ensures d * x >= d
    decreases x
  {
    if x > 1 {
      MultipleIsLarge(d, x - 1);
      assert d * x == d * (x - 1) + d;
    }
  }

  lemma SmallMultipleIsZero(d: int, x: int)
    requires d > 0
    ensures x != 0 ==> d * x >= d || d * x <= -d
  {
    if x > 0 {
      MultipleIsLarge(d, x);
    } else if x < 0 {
      MultipleIsLarge(d, -x);
      assert d * x == -(d * -x);
    }
  }

  lemma QuotientIs(n: int, d: int, q: int)
    requires d > 0 && d * q <= n < d * q + d
    ensures n / d == q && n % d == n - d * q
  {
    var (k, r) := (n / d, n % d);
    assert n == d * k + r;
    assert d * (k - q) == d * k - d * q;
    SmallMultipleIsZero(d, k - q);
  }

  lemma DaysBeforeYearDigits(era: int, c: int, r: int, y: int)
    requires 0 <= c < 4 && 0 <= r < 100 && y == 400 * era + 100 * c + r
    ensures DaysBeforeYear(y) == 146_097 * era + 36_524 * c + 365 * r + r / 4
  {
    var yoe := 100 * c + r;
    QuotientIs(y, 400, era);
    QuotientIs(yoe, 4, 25 * c + r / 4);
    QuotientIs(yoe, 100, c);
  }

  lemma YearLength(y: int)
    ensures DaysBeforeYear(y + 1) - DaysBeforeYear(y) == if IsLeap(y + 1) then 366 else 365
  {
    hide DaysBeforeYear, IsLeap;
    var (era, yoe) := (y / 400, y % 400);
    var (c, r) := (yoe / 100, yoe % 100);
    DaysBeforeYearDigits(era, c, r, y);
    LeapPattern(era, c, r + 1, y + 1);
    if r < 99 {
      DaysBeforeYearDigits(era, c, r + 1, y + 1);
    } else if c < 3 {
      DaysBeforeYearDigits(era, c + 1, 0, y + 1);
    } else {
      DaysBeforeYearDigits(era + 1, 0, 0, y + 1);
    }
  }

  /** Leap years by position in the era. */
  lemma LeapPattern(era: int, c: int, r: int, year: int)
    requires 0 <= c < 4 && 0 <= r <= 100 && year == 400 * era + 100 * c + r
    ensures IsLeap(year) <==> r % 4 == 0 && (0 < r < 100 || (r == 0 && c == 0) || (r == 100 && c == 3))
  {
    QuotientIs(year, 4, 100 * era + 25 * c + r / 4);
    if r < 100 {
      QuotientIs(year, 100, 4 * era + c);
      QuotientIs(year, 400, era);
    } else {
      QuotientIs(year, 100, 4 * era + c + 1);
      QuotientIs(year, 400, if c == 3 then era + 1 else era);
    }
  }

  /** One step of the calendar adds one to the day count. */
  lemma NextDayCounts(date: Date)
    requires IsDate(date)
    ensures IsDate(NextDay(date)) && DaysFromCivil(NextDay(date)) == DaysFromCivil(date) + 1
  {
    hide DaysBeforeYear;
    YearLength(date.year - 1);
  }

  lemma {:induction false} DateAfterCounts(days: nat)
    ensures DaysFromCivil(DateAfter(days)) == days
  {
    if days == 0 {
      assert DaysFromCivil(EPOCH) == 0;
    } else {
      DateAfterCounts(days - 1);
      NextDayCounts(DateAfter(days - 1));
    }
  }

  // ----- The closed form inverts the count --------------------------------------------------

  /** The nested divisions recover the year of the era. */
  lemma YearOfEraIsExact(yoe: int, doy: int)
    requires 0 <= yoe < 400 && 0 <= doy <= if IsLeap(yoe + 1) then 365 else 364
    ensures YearOfEra(365 * yoe + yoe / 4 - yoe / 100 + doy) == yoe
    ensures 0 <= 365 * yoe + yoe / 4 - yoe / 100 + doy < 146_097
  {
    var (c, r) := (yoe / 100, yoe % 100);
    var (q, s) := (r / 4, r % 4);
    QuotientIs(yoe, 4, 25 * c + q);
    LeapPattern(0, c, r + 1, yoe + 1);
    YearOfEraDigits(c, q, s, doy);
  }

  lemma YearOfEraDigits(c: int, q: int, s: int, doy: int)
    requires 0 <= c < 4 && 0 <= q < 25 && 0 <= s < 4 && 0 <= doy <= 365
    requires doy == 365 ==> s == 3 && (q < 24 || c == 3)
    ensures var doe := 36_524 * c + 1461 * q + 365 * s + doy;
            0 <= doe < 146_097 && YearOfEra(doe) == 100 * c + 4 * q + s
  {
    var doe := 36_524 * c + 1461 * q + 365 * s + doy;
    var t := 24 * c + q + 365 * s + doy;
    var carry := if t >= 1460 then 1 else 0;
    QuotientIs(doe, 1460, 25 * c + q + carry);
    if doe == 146_096 {
      QuotientIs(doe, 36_524, 4);
    } else {
      QuotientIs(doe, 36_524, c);
    }
    QuotientIs(36_500 * c + 1460 * q + 365 * s + doy - carry, 365, 100 * c + 4 * q + s);
  }

  /** March-based months are recovered from the day of the year. */
  lemma MarchMonthIsExact(date: Date)
    requires IsDate(date)
    ensures (5 * MarchDay(date) + 2) / 153 == MarchMonth(date)
    ensures 0 <= MarchDay(date) <= if IsLeap(MarchYear(date) + 1) then 365 else 364
  {
  }

  lemma CivilInvertsCount(date: Date)
    requires IsDate(date) && DaysFromCivil(date) >= 0
    ensures CivilFromDays(DaysFromCivil(date)) == date
  {
    hide IsLeap, YearOfEra, DaysInMonth;
    var (y, doy) := (MarchYear(date), MarchDay(date));
    var (era, yoe) := (y / 400, y % 400);
    var doe := 365 * yoe + yoe / 4 - yoe / 100 + doy;
    assert YearOfEra(doe) == yoe && 0 <= doe < 146_097 by {
      MarchMonthIsExact(date);
      LeapYearOfEra(y);
      YearOfEraIsExact(yoe, doy);
    }
    assert (DaysFromCivil(date) + 719_468) / 146_097 == era by {
      QuotientIs(DaysFromCivil(date) + 719_468, 146_097, era);
    }
    assert (5 * doy + 2) / 153 == MarchMonth(date) by {
      MarchMonthIsExact(date);
    }
    assert 1 <= date.month <= 12;
  }

  lemma LeapYearOfEra(y: int)
    ensures IsLeap(y + 1) <==> IsLeap(y % 400 + 1)
  {
    var (era, yoe) := (y / 400, y % 400);
    LeapPattern(era, yoe / 100, yoe % 100 + 1, y + 1);
    LeapPattern(0, yoe / 100, yoe % 100 + 1, yoe + 1);
  }

  /** The closed form is the calendar stepped one day at a time from 1970-01-01. */
  lemma CivilIsStepping(days: nat)
    ensures CivilFromDays(days) == DateAfter(days)
    ensures IsDate(CivilFromDays(days)) && DaysFromCivil(CivilFromDays(days)) == days
  {
    DateAfterCounts(days);
    CivilInvertsCount(DateAfter(days));
  }

  // ----- Order ---------------------------------------------------------------------------------

  predicate Before(a: Date, b: Date) {
    || a.year < b.year
    || (a.year == b.year && a.month < b.month)
    || (a.year == b.year && a.month == b.month && a.day < b.day)
  }

  lemma {:induction false} LaterYearCounts(a: int, b: int)
    requires a < b
    ensures DaysFromCivil(Date(a, 12, 31)) < DaysFromCivil(Date(b, 1, 1))
    decreases b - a
  {
    NextDayCounts(Date(a, 12, 31));
    if a + 1 < b {
      LaterYearCounts(a + 1, b);
      SameYearCounts(Date(a + 1, 1, 1), Date(a + 1, 12, 31));
    }
  }

  lemma SameYearCounts(a: Date, b: Date)
    requires IsDate(a) && IsDate(b) && a.year == b.year && Before(a, b)
    ensures DaysFromCivil(a) < DaysFromCivil(b)
  {
    hide DaysBeforeYear;
    YearLength(a.year - 1);
  }

  /** Calendar order is count order. */
  lemma OrderIsCountOrder(a: Date, b: Date)
    requires IsDate(a) && IsDate(b)
    ensures Before(a, b) <==> DaysFromCivil(a) < DaysFromCivil(b)
  {
    hide DaysFromCivil;
    if Before(a, b) {
      BeforeCounts(a, b);
    } else if Before(b, a) {
      BeforeCounts(b, a);
    } else {
      assert a == b;
    }
  }

  lemma BeforeCounts(a: Date, b: Date)
    requires IsDate(a) && IsDate(b) && Before(a, b)
    ensures DaysFromCivil(a) < DaysFromCivil(b)
  {
    hide DaysFromCivil;
    if a.year == b.year {
      SameYearCounts(a, b);
    } else {
      var (last, first) := (Date(a.year, 12, 31), Date(b.year, 1, 1));
      LaterYearCounts(a.year, b.year);
      if a != last {
        SameYearCounts(a, last);
      }
      if b != first {
        SameYearCounts(first, b);
      }
    }
  }
}
