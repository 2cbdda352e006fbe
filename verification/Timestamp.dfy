/** UTC timestamps as text: `epoch_to_iso8601` of `xtask/src/provenance.rs` and
    `iso8601_to_unix` of `xtask/src/release_authority.rs`, in the profile of section 5.6 of
    RFC 3339 without fractions and with the literal `Z`. */
module Timestamp {
  import opened Prelude
  import opened Calendar
  import Order

  const ZERO: byte := '0' as int
  const DASH: byte := '-' as int
  const COLON: byte := ':' as int
  const TEE: byte := 'T' as int
  const ZULU: byte := 'Z' as int

  /** The first second of year 10000. */
  const END_OF_9999: int := 253_402_300_800

  function Digit(n: nat): byte
    requires n < 10
  {
    ZERO + n
  }

  /** The format `{n:0width}`: at least `width` digits. */
  function ZeroPadded(n: nat, width: nat): (s: Str) {
    if n < 10 && width <= 1 then [Digit(n)]
    else ZeroPadded(n / 10, if width == 0 then 0 else width - 1) + [Digit(n % 10)]
  }

  /** `epoch_to_iso8601`. */
  function EpochToIso8601(epoch: u64): Str {
    var remainder := epoch % 86400;
    var date := CivilFromDays(epoch / 86400);
    CivilIsStepping(epoch / 86400);
    YearIsNatural(epoch / 86400);
    ZeroPadded(date.year, 4) + [DASH] + ZeroPadded(date.month, 2) + [DASH] + ZeroPadded(date.day, 2) + [TEE]
    + ZeroPadded(remainder / 3600, 2) + [COLON] + ZeroPadded(remainder % 3600 / 60, 2) + [COLON]
    + ZeroPadded(remainder % 60, 2) + [ZULU]
  }

  lemma {:induction false} YearIsNatural(days: nat)
    ensures DateAfter(days).year >= 1970
    ensures CivilFromDays(days).year >= 1970
  {
    CivilIsStepping(days);
    if days > 0 {
      YearIsNatural(days - 1);
    }
  }

  predicate IsDigit(c: byte) {
    ZERO <= c <= ZERO + 9
  }

  /** The closure `digits2`. */
  function Digits2(b: Str, i: nat): Option<int>
    requires i + 1 < |b|
  {
    if IsDigit(b[i]) && IsDigit(b[i + 1]) then Some((b[i] as int - ZERO) * 10 + (b[i + 1] as int - ZERO)) else None
  }

  /** `iso8601_to_unix`. */
  function Iso8601ToUnix(b: Str): Option<int> {
    if |b| != 20 || b[4] != DASH || b[7] != DASH || b[10] != TEE || b[13] != COLON || b[16] != COLON || b[19] != ZULU
       || !(IsDigit(b[0]) && IsDigit(b[1]) && IsDigit(b[2]) && IsDigit(b[3]))
    then None
    else
      var year := (b[0] as int - 48) * 1000 + (b[1] as int - 48) * 100 + (b[2] as int - 48) * 10 + (b[3] as int - 48);
      match (Digits2(b, 5), Digits2(b, 8), Digits2(b, 11), Digits2(b, 14), Digits2(b, 17))
      case (Some(month), Some(day), Some(hour), Some(minute), Some(second)) =>
        if !(1 <= month <= 12) || day < 1 || day > DaysInMonth(year, month)
           || !(0 <= hour <= 23) || !(0 <= minute <= 59) || !(0 <= second <= 59)
        then None
        else Some(DaysFromCivil(Date(year, month, day)) * 86400 + hour * 3600 + minute * 60 + second)
      case _ => None
  }

  // ----- What the text denotes --------------------------------------------------------

  datatype Stamp = Stamp(date: Date, hour: int, minute: int, second: int)

  ghost predicate IsStamp(t: Stamp) {
    && IsDate(t.date) && 0 <= t.date.year <= 9999
    && 0 <= t.hour <= 23 && 0 <= t.minute <= 59 && 0 <= t.second <= 59
  }

  ghost function UnixOf(t: Stamp): int {
    DaysFromCivil(t.date) * 86400 + t.hour * 3600 + t.minute * 60 + t.second
  }

  ghost function DateText(date: Date): (s: Str)
    requires IsDate(date) && 0 <= date.year <= 9999
  {
    var (y, m, d) := (date.year, date.month, date.day);
    [Digit(y / 1000), Digit(y / 100 % 10), Digit(y / 10 % 10), Digit(y % 10), DASH,
     Digit(m / 10), Digit(m % 10), DASH, Digit(d / 10), Digit(d % 10)]
  }

  ghost function ClockText(t: Stamp): (s: Str)
    requires IsStamp(t)
  {
    [TEE, Digit(t.hour / 10), Digit(t.hour % 10), COLON, Digit(t.minute / 10), Digit(t.minute % 10), COLON,
     Digit(t.second / 10), Digit(t.second % 10), ZULU]
  }

  /** The one text of a stamp. */
  ghost function Text(t: Stamp): (s: Str)
    requires IsStamp(t)
    ensures |s| == 20
  {
    DateText(t.date) + ClockText(t)
  }

  /** Two digits spell `n`. */
  predicate Spells(high: byte, low: byte, n: int) {
    0 <= n < 100 && high == Digit(n / 10) && low == Digit(n % 10)
  }

  lemma Digits2Spells(b: Str, i: nat, n: int)
    requires i + 1 < |b|
    ensures Spells(b[i], b[i + 1], n) <==> Digits2(b, i) == Some(n)
  {
  }

  lemma YearSpells(a: byte, b: byte, c: byte, d: byte, y: int)
    requires IsDigit(a) && IsDigit(b) && IsDigit(c) && IsDigit(d)
    requires y == (a as int - 48) * 1000 + (b as int - 48) * 100 + (c as int - 48) * 10 + (d as int - 48)
    ensures 0 <= y <= 9999
    ensures a == Digit(y / 1000) && b == Digit(y / 100 % 10) && c == Digit(y / 10 % 10) && d == Digit(y % 10)
  {
    QuotientIs(y, 1000, a - 48);
    QuotientIs(y, 100, 10 * (a - 48) + (b - 48));
    QuotientIs(y, 10, 100 * (a - 48) + 10 * (b - 48) + (c - 48));
  }

  /** Every stamp's text is accepted, with its value. */
  lemma TextIsAccepted(t: Stamp)
    requires IsStamp(t)
    ensures Iso8601ToUnix(Text(t)) == Some(UnixOf(t))
  {
    hide DaysFromCivil, Digits2, Text, DaysInMonth;
    var s := Text(t);
    TextBytes(t);
    YearValue(t.date.year);
    Digits2Spells(s, 5, t.date.month);
    Digits2Spells(s, 8, t.date.day);
    Digits2Spells(s, 11, t.hour);
    Digits2Spells(s, 14, t.minute);
    Digits2Spells(s, 17, t.second);
  }

  lemma YearValue(y: int)
    requires 0 <= y <= 9999
    ensures y == (Digit(y / 1000) as int - 48) * 1000 + (Digit(y / 100 % 10) as int - 48) * 100
                 + (Digit(y / 10 % 10) as int - 48) * 10 + (Digit(y % 10) as int - 48)
  {
    assert y / 10 / 10 == y / 100 && y / 100 / 10 == y / 1000;
  }

  lemma TextBytes(t: Stamp)
    requires IsStamp(t)
    ensures var (s, y) := (Text(t), t.date.year);
            && s[0] == Digit(y / 1000) && s[1] == Digit(y / 100 % 10) && s[2] == Digit(y / 10 % 10) && s[3] == Digit(y % 10)
            && s[4] == s[7] == DASH && s[10] == TEE && s[13] == s[16] == COLON && s[19] == ZULU
            && Spells(s[5], s[6], t.date.month) && Spells(s[8], s[9], t.date.day)
            && Spells(s[11], s[12], t.hour) && Spells(s[14], s[15], t.minute) && Spells(s[17], s[18], t.second)
  {
  }

  /** Nothing else is: an accepted string is the text of the stamp it denotes. */
  lemma AcceptedIsText(b: Str) returns (t: Stamp)
    requires Iso8601ToUnix(b).Some?
    ensures IsStamp(t) && b == Text(t) && Iso8601ToUnix(b) == Some(UnixOf(t))
  {
    hide DaysFromCivil;
    var year := (b[0] as int - 48) * 1000 + (b[1] as int - 48) * 100 + (b[2] as int - 48) * 10 + (b[3] as int - 48);
    t := Stamp(Date(year, Digits2(b, 5).value, Digits2(b, 8).value),
               Digits2(b, 11).value, Digits2(b, 14).value, Digits2(b, 17).value);
    YearSpells(b[0], b[1], b[2], b[3], year);
    assert IsStamp(t) && Iso8601ToUnix(b) == Some(UnixOf(t));
    hide Digits2, Iso8601ToUnix;
    Digits2Spells(b, 5, t.date.month);
    Digits2Spells(b, 8, t.date.day);
    Digits2Spells(b, 11, t.hour);
    Digits2Spells(b, 14, t.minute);
    Digits2Spells(b, 17, t.second);
    assert b[..10] == DateText(t.date);
    assert b[10..] == ClockText(t);
    assert b == b[..10] + b[10..];
  }

  // ----- Round trips ------------------------------------------------------------------------

  ghost function StampAt(epoch: u64): Stamp {
    var remainder := epoch % 86400;
    Stamp(CivilFromDays(epoch / 86400), remainder / 3600, remainder % 3600 / 60, remainder % 60)
  }

  lemma StampAtDenotes(epoch: u64)
    ensures IsDate(StampAt(epoch).date) && UnixOf(StampAt(epoch)) == epoch
  {
    hide CivilFromDays, DaysFromCivil;
    CivilIsStepping(epoch / 86400);
  }

  lemma EndOf9999()
    ensures DaysFromCivil(Date(10000, 1, 1)) * 86400 == END_OF_9999
  {
    assert DaysBeforeYear(9999) == 24 * 146_097 + 399 * 365 + 99 - 3;
  }

  lemma YearBound(epoch: u64)
    ensures StampAt(epoch).date.year <= 9999 <==> epoch < END_OF_9999
  {
    hide CivilFromDays, DaysFromCivil;
    var first := Date(10000, 1, 1);
    EndOf9999();
    CivilIsStepping(epoch / 86400);
    var date := CivilFromDays(epoch / 86400);
    OrderIsCountOrder(date, first);
  }

  lemma ZeroPaddedTwo(n: nat)
    requires n < 100
    ensures ZeroPadded(n, 2) == [Digit(n / 10), Digit(n % 10)]
  {
    assert ZeroPadded(n / 10, 1) == [Digit(n / 10)];
  }

  lemma ZeroPaddedFour(n: nat)
    requires n < 10000
    ensures ZeroPadded(n, 4) == [Digit(n / 1000), Digit(n / 100 % 10), Digit(n / 10 % 10), Digit(n % 10)]
  {
    ZeroPaddedTwo(n / 100);
    assert n / 100 / 10 == n / 1000 && n / 10 / 10 == n / 100;
    assert ZeroPadded(n / 10, 3) == [Digit(n / 1000), Digit(n / 100 % 10)] + [Digit(n / 10 % 10)];
  }

  lemma {:induction false} ZeroPaddedAtLeast(n: nat, width: nat, digits: nat)
    requires digits >= 1 && (digits == 1 || n >= PowerOfTen(digits - 1))
    ensures |ZeroPadded(n, width)| >= digits
    decreases digits
  {
    if digits > 1 {
      ZeroPaddedAtLeast(n / 10, if width == 0 then 0 else width - 1, digits - 1);
    }
  }

  function PowerOfTen(k: nat): (p: nat)
    ensures p >= 1 && (k > 0 ==> p >= 10)
  {
    if k == 0 then 1 else 10 * PowerOfTen(k - 1)
  }

  /** Through year 9999 the printed epoch is the text of its stamp. */
  lemma PrintedIsText(epoch: u64)
    requires epoch < END_OF_9999
    ensures IsStamp(StampAt(epoch)) && EpochToIso8601(epoch) == Text(StampAt(epoch))
  {
    hide CivilFromDays, DaysFromCivil, ZeroPadded, Digit;
    StampAtDenotes(epoch);
    YearBound(epoch);
    YearIsNatural(epoch / 86400);
    var t := StampAt(epoch);
    ZeroPaddedFour(t.date.year);
    ZeroPaddedTwo(t.date.month);
    ZeroPaddedTwo(t.date.day);
    ZeroPaddedTwo(t.hour);
    ZeroPaddedTwo(t.minute);
    ZeroPaddedTwo(t.second);
  }

  /** Parsing what was printed gives the epoch back exactly through year 9999; from year 10000
      on, the five-digit year is refused. */
  lemma PrintThenParse(epoch: u64)
    ensures Iso8601ToUnix(EpochToIso8601(epoch)) == if epoch < END_OF_9999 then Some(epoch) else None
  {
    hide CivilFromDays, DaysFromCivil, ZeroPadded, Text;
    if epoch < END_OF_9999 {
      PrintedIsText(epoch);
      TextIsAccepted(StampAt(epoch));
      StampAtDenotes(epoch);
    } else {
      PrintedIsLong(epoch);
    }
  }

  lemma PrintedIsLong(epoch: u64)
    requires epoch >= END_OF_9999
    ensures |EpochToIso8601(epoch)| > 20
  {
    hide CivilFromDays, DaysFromCivil, ZeroPadded;
    YearBound(epoch);
    StampAtDenotes(epoch);
    YearIsNatural(epoch / 86400);
    var t := StampAt(epoch);
    assert PowerOfTen(2) == 100 && PowerOfTen(4) == 10000;
    ZeroPaddedAtLeast(t.date.year, 4, 5);
    ZeroPaddedTwo(t.date.month);
    ZeroPaddedTwo(t.date.day);
    ZeroPaddedTwo(t.hour);
    ZeroPaddedTwo(t.minute);
    ZeroPaddedTwo(t.second);
  }

  /** Printing what was parsed gives the same string back, whenever the time is not before 1970. */
  lemma ParseThenPrint(b: Str)
    requires Iso8601ToUnix(b).Some? && Iso8601ToUnix(b).value >= 0
    ensures Iso8601ToUnix(b).value < END_OF_9999 && EpochToIso8601(Iso8601ToUnix(b).value) == b
  {
    hide Iso8601ToUnix, Text, EpochToIso8601, DaysFromCivil, CivilFromDays;
    var t := AcceptedIsText(b);
    var epoch := UnixOf(t);
    var days := DaysFromCivil(t.date);
    EndOf9999();
    OrderIsCountOrder(t.date, Date(10000, 1, 1));
    assert epoch / 86400 == days && epoch % 86400 == t.hour * 3600 + t.minute * 60 + t.second;
    CivilInvertsCount(t.date);
    assert StampAt(epoch) == t;
    YearBound(epoch);
    PrintedIsText(epoch);
  }

  // ----- Order ---------------------------------------------------------------------------------

  function Pair(n: nat): (s: Str)
    requires n < 100
  {
    [Digit(n / 10), Digit(n % 10)]
  }

  lemma PairOrder(a: nat, b: nat, x: Str, y: Str)
    requires a < 100 && b < 100
    ensures Order.Less(Pair(a) + x, Pair(b) + y) <==> a < b || (a == b && Order.Less(x, y))
  {
    Order.LessAppend(Pair(a), Pair(b), x, y);
    assert Pair(a)[1..] == [Digit(a % 10)] && Pair(b)[1..] == [Digit(b % 10)];
    assert Pair(a) == Pair(b) ==> Pair(a)[0] == Pair(b)[0] && Pair(a)[1] == Pair(b)[1];
  }

  lemma MarkOrder(c: byte, x: Str, y: Str)
    ensures Order.Less([c] + x, [c] + y) <==> Order.Less(x, y)
  {
    Order.LessAppend([c], [c], x, y);
    Order.Trichotomy([c], [c]);
  }

  ghost function Clock(t: Stamp): int {
    t.hour * 3600 + t.minute * 60 + t.second
  }

  lemma ClockTextNests(t: Stamp)
    requires IsStamp(t)
    ensures ClockText(t) == [TEE] + (Pair(t.hour) + ([COLON] + (Pair(t.minute) + ([COLON] + (Pair(t.second) + [ZULU])))))
  {
    hide Digit;
    assert [COLON] + (Pair(t.second) + [ZULU]) == [COLON, Digit(t.second / 10), Digit(t.second % 10), ZULU];
  }

  lemma ClockOrder(a: Stamp, b: Stamp)
    requires IsStamp(a) && IsStamp(b)
    ensures Order.Less(ClockText(a), ClockText(b)) <==> Clock(a) < Clock(b)
  {
    hide Pair, Order.Less, ClockText;
    var (secondsA, secondsB) := (Pair(a.second) + [ZULU], Pair(b.second) + [ZULU]);
    var (minutesA, minutesB) := (Pair(a.minute) + ([COLON] + secondsA), Pair(b.minute) + ([COLON] + secondsB));
    var (hoursA, hoursB) := (Pair(a.hour) + ([COLON] + minutesA), Pair(b.hour) + ([COLON] + minutesB));
    ClockTextNests(a);
    ClockTextNests(b);
    MarkOrder(TEE, hoursA, hoursB);
    PairOrder(a.hour, b.hour, [COLON] + minutesA, [COLON] + minutesB);
    MarkOrder(COLON, minutesA, minutesB);
    PairOrder(a.minute, b.minute, [COLON] + secondsA, [COLON] + secondsB);
    MarkOrder(COLON, secondsA, secondsB);
    PairOrder(a.second, b.second, [ZULU], [ZULU]);
    Order.Trichotomy([ZULU], [ZULU]);
  }

  lemma DateTextNests(date: Date)
    requires IsDate(date) && 0 <= date.year <= 9999
    ensures DateText(date)
         == Pair(date.year / 100) + (Pair(date.year % 100) + ([DASH] + (Pair(date.month) + ([DASH] + (Pair(date.day) + [])))))
  {
    YearPairs(date.year);
    hide Digit, Pair;
    PairDigits(date.month);
    PairDigits(date.day);
    assert [DASH] + (Pair(date.day) + []) == [DASH, Digit(date.day / 10), Digit(date.day % 10)];
    assert Pair(date.month) + [DASH, Digit(date.day / 10), Digit(date.day % 10)]
        == [Digit(date.month / 10), Digit(date.month % 10), DASH, Digit(date.day / 10), Digit(date.day % 10)];
  }

  lemma PairDigits(n: nat)
    requires n < 100
    ensures Pair(n) == [Digit(n / 10), Digit(n % 10)]
  {
  }

  lemma YearPairs(y: nat)
    requires y <= 9999
    ensures Pair(y / 100) == [Digit(y / 1000), Digit(y / 100 % 10)]
    ensures Pair(y % 100) == [Digit(y / 10 % 10), Digit(y % 10)]
  {
    hide Digit;
    assert y / 100 / 10 == y / 1000 && y % 100 / 10 == y / 10 % 10 && y % 100 % 10 == y % 10;
  }

  lemma DateOrder(a: Date, b: Date)
    requires IsDate(a) && 0 <= a.year <= 9999 && IsDate(b) && 0 <= b.year <= 9999
    ensures Order.Less(DateText(a), DateText(b)) <==> Before(a, b)
  {
    hide Pair, Order.Less, DateText;
    var (daysA, daysB) := (Pair(a.day) + [], Pair(b.day) + []);
    var (monthsA, monthsB) := (Pair(a.month) + ([DASH] + daysA), Pair(b.month) + ([DASH] + daysB));
    DateTextNests(a);
    DateTextNests(b);
    PairOrder(a.year / 100, b.year / 100, Pair(a.year % 100) + ([DASH] + monthsA), Pair(b.year % 100) + ([DASH] + monthsB));
    PairOrder(a.year % 100, b.year % 100, [DASH] + monthsA, [DASH] + monthsB);
    MarkOrder(DASH, monthsA, monthsB);
    PairOrder(a.month, b.month, [DASH] + daysA, [DASH] + daysB);
    MarkOrder(DASH, daysA, daysB);
    PairOrder(a.day, b.day, [], []);
    Order.Trichotomy([], []);
  }

  /** Among accepted strings, byte order is time order. */
  lemma ByteOrderIsTimeOrder(a: Str, b: Str)
    requires Iso8601ToUnix(a).Some? && Iso8601ToUnix(b).Some?
    ensures Order.Less(a, b) <==> Iso8601ToUnix(a).value < Iso8601ToUnix(b).value
  {
    hide Iso8601ToUnix, Order.Less, DaysFromCivil, DateText, ClockText;
    var s := AcceptedIsText(a);
    var t := AcceptedIsText(b);
    assert |DateText(s.date)| == |DateText(t.date)| by {
      DateTextNests(s.date);
      DateTextNests(t.date);
    }
    Order.LessAppend(DateText(s.date), DateText(t.date), ClockText(s), ClockText(t));
    DateOrder(s.date, t.date);
    DateOrder(t.date, s.date);
    Order.Trichotomy(DateText(s.date), DateText(t.date));
    ClockOrder(s, t);
    OrderIsCountOrder(s.date, t.date);
    OrderIsCountOrder(t.date, s.date);
  }
}
