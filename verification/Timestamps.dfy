/**
 * The keys of stored batches, "%y-%m-%d_%H-%M-%S". Within a century the byte order of the keys
 * is the order in time.
 */
module Timestamps {
  import opened Bytes
  import opened Values
  import opened PatchBodies
  import opened Numbers

  /** Broken-down local time; the year counts from 2000. */
  datatype Time = Time(year: nat, month: nat, day: nat, hour: nat, minute: nat, second: nat)

  predicate IsLeap(year: nat) {
    year % 4 == 0
  }

  function MonthLength(month: nat, leap: bool): nat {
    if month == 2 then (if leap then 29 else 28)
    else if month == 4 || month == 6 || month == 9 || month == 11 then 30
    else 31
  }

  predicate Valid(t: Time) {
    && t.year < 100 && 1 <= t.month <= 12 && 1 <= t.day <= MonthLength(t.month, IsLeap(t.year))
    && t.hour < 24 && t.minute < 60 && t.second < 60
  }

  /** Days of the year before the first of a month. */
  function DaysBefore(month: nat, leap: bool): nat {
    if month <= 1 then 0 else DaysBefore(month - 1, leap) + MonthLength(month - 1, leap)
  }

  /** Days since 1 January 2000. */
  function DayNumber(t: Time): int {
    365 * t.year + (t.year + 3) / 4 + DaysBefore(t.month, IsLeap(t.year)) + t.day - 1
  }

  /** Seconds since 1 January 2000, 00:00. */
  function Instant(t: Time): int {
    ((DayNumber(t) * 24 + t.hour) * 60 + t.minute) * 60 + t.second
  }

  // ---------------------------------------------------------------- keys

  function TwoDigits(n: nat): (r: Bytes)
    requires n < 100
    ensures |r| == 2
  {
    [ZERO + n / 10, ZERO + n % 10]
  }

  function KeyOf(t: Time): (k: Bytes)
    requires Valid(t)
    ensures |k| == 17
  {
    TwoDigits(t.year) + [MINUS] + TwoDigits(t.month) + [MINUS] + TwoDigits(t.day) + [UNDERSCORE]
    + TwoDigits(t.hour) + [MINUS] + TwoDigits(t.minute) + [MINUS] + TwoDigits(t.second)
  }

  lemma TwoDigitsValue(n: nat)
    requires n < 100
    ensures AllDigits(TwoDigits(n)) && NatOf(TwoDigits(n)) == n
  {
    var d := TwoDigits(n);
    assert d[..1] == [d[0]] && d[..1][..0] == [];
    assert NatOf(d[..1]) == NatOf([]) * 10 + DigitOf(d[0]);
  }

  /** `d` is the number `n` in two decimal digits. */
  predicate IsField(d: Bytes, n: nat) {
    |d| == 2 && AllDigits(d) && NatOf(d) == n
  }

  /** A key reads YY-MM-DD_hh-mm-ss. */
  lemma KeyFields(t: Time)
    requires Valid(t)
    ensures var k := KeyOf(t);
            && |k| == 17
            && IsField(k[0..2], t.year) && k[2] == 0x2D && IsField(k[3..5], t.month) && k[5] == 0x2D
            && IsField(k[6..8], t.day) && k[8] == 0x5F && IsField(k[9..11], t.hour) && k[11] == 0x2D
            && IsField(k[12..14], t.minute) && k[14] == 0x2D && IsField(k[15..17], t.second)
  {
    hide TwoDigits, NatOf;
    TwoDigitsValue(t.year);
    TwoDigitsValue(t.month);
    TwoDigitsValue(t.day);
    TwoDigitsValue(t.hour);
    TwoDigitsValue(t.minute);
    TwoDigitsValue(t.second);
    var k := KeyOf(t);
    assert k[0..2] == TwoDigits(t.year) && k[3..5] == TwoDigits(t.month) && k[6..8] == TwoDigits(t.day);
    assert k[9..11] == TwoDigits(t.hour) && k[12..14] == TwoDigits(t.minute) && k[15..17] == TwoDigits(t.second);
  }

  // ---------------------------------------------------------------- order of keys

  lemma {:induction false} KeyLessConcat(a: Bytes, b: Bytes, x: Bytes, y: Bytes)
    requires |a| == |b|
    ensures KeyLess(a + x, b + y) <==> KeyLess(a, b) || (a == b && KeyLess(x, y))
  {
    if a == [] {
      assert a + x == x && b + y == y;
      KeyIrreflexive(a);
    } else {
      KeyLessConcat(a[1..], b[1..], x, y);
      KeyLessStep(a, b);
      KeyLessStep(a + x, b + y);
      assert (a + x)[1..] == a[1..] + x && (b + y)[1..] == b[1..] + y;
      assert a == [a[0]] + a[1..] && b == [b[0]] + b[1..];
    }
  }

  lemma TwoDigitsLess(m: nat, n: nat)
    requires m < 100 && n < 100
    ensures KeyLess(TwoDigits(m), TwoDigits(n)) <==> m < n
    ensures TwoDigits(m) == TwoDigits(n) <==> m == n
  {
    var a, b := TwoDigits(m), TwoDigits(n);
    KeyLessStep(a, b);
    KeyLessStep(a[1..], b[1..]);
    KeyIrreflexive([]);
    assert a[1..][1..] == [] && b[1..][1..] == [];
    assert a == [a[0], a[1]] && b == [b[0], b[1]];
  }

  /** One field, the separator after it, and the rest. */
  lemma FieldLess(m: nat, n: nat, sep: byte, x: Bytes, y: Bytes)
    requires m < 100 && n < 100
    ensures KeyLess(TwoDigits(m) + [sep] + x, TwoDigits(n) + [sep] + y) <==> m < n || (m == n && KeyLess(x, y))
  {
    hide KeyLess, TwoDigits;
    TwoDigitsLess(m, n);
    assert TwoDigits(m) + [sep] + x == TwoDigits(m) + ([sep] + x);
    assert TwoDigits(n) + [sep] + y == TwoDigits(n) + ([sep] + y);
    KeyLessConcat(TwoDigits(m), TwoDigits(n), [sep] + x, [sep] + y);
    KeyLessConcat([sep], [sep], x, y);
    KeyIrreflexive([sep]);
  }

  function ClockKey(t: Time): Bytes
    requires Valid(t)
  {
    TwoDigits(t.hour) + [MINUS] + (TwoDigits(t.minute) + [MINUS] + TwoDigits(t.second))
  }

  function DateTail(t: Time): Bytes
    requires Valid(t)
  {
    TwoDigits(t.month) + [MINUS] + (TwoDigits(t.day) + [UNDERSCORE] + ClockKey(t))
  }

  lemma KeyNests(t: Time)
    requires Valid(t)
    ensures KeyOf(t) == TwoDigits(t.year) + [MINUS] + DateTail(t)
  {
    hide TwoDigits;
  }

  predicate ClockLess(a: Time, b: Time) {
    a.hour < b.hour || (a.hour == b.hour && (a.minute < b.minute || (a.minute == b.minute && a.second < b.second)))
  }

  predicate SameDate(a: Time, b: Time) {
    a.year == b.year && a.month == b.month && a.day == b.day
  }

  predicate DateLess(a: Time, b: Time) {
    a.year < b.year || (a.year == b.year && (a.month < b.month || (a.month == b.month && a.day < b.day)))
  }

  lemma ClockKeyLess(a: Time, b: Time)
    requires Valid(a) && Valid(b)
    ensures KeyLess(ClockKey(a), ClockKey(b)) <==> ClockLess(a, b)
  {
    hide KeyLess, TwoDigits;
    FieldLess(a.hour, b.hour, MINUS, TwoDigits(a.minute) + [MINUS] + TwoDigits(a.second),
        TwoDigits(b.minute) + [MINUS] + TwoDigits(b.second));
    FieldLess(a.minute, b.minute, MINUS, TwoDigits(a.second), TwoDigits(b.second));
    TwoDigitsLess(a.second, b.second);
  }

  lemma KeyOrder(a: Time, b: Time)
    requires Valid(a) && Valid(b)
    ensures KeyLess(KeyOf(a), KeyOf(b)) <==> DateLess(a, b) || (SameDate(a, b) && ClockLess(a, b))
  {
    hide KeyLess, TwoDigits, ClockKey, KeyOf;
    KeyNests(a);
    KeyNests(b);
    ClockKeyLess(a, b);
    FieldLess(a.year, b.year, MINUS, DateTail(a), DateTail(b));
    FieldLess(a.month, b.month, MINUS, TwoDigits(a.day) + [UNDERSCORE] + ClockKey(a),
        TwoDigits(b.day) + [UNDERSCORE] + ClockKey(b));
    FieldLess(a.day, b.day, UNDERSCORE, ClockKey(a), ClockKey(b));
  }

  // ---------------------------------------------------------------- order in time

  lemma {:induction false} MonthsGrow(m: nat, n: nat, leap: bool)
    requires 1 <= m < n
    ensures DaysBefore(m, leap) + MonthLength(m, leap) <= DaysBefore(n, leap)
    decreases n
  {
    if m < n - 1 {
      MonthsGrow(m, n - 1, leap);
    }
  }

  lemma YearLength(leap: bool)
    ensures DaysBefore(12, leap) + MonthLength(12, leap) == if leap then 366 else 365
  {
    assert DaysBefore(2, leap) == DaysBefore(1, leap) + 31;
    assert DaysBefore(3, leap) == DaysBefore(2, leap) + MonthLength(2, leap);
    assert DaysBefore(4, leap) == DaysBefore(3, leap) + 31;
    assert DaysBefore(5, leap) == DaysBefore(4, leap) + 30;
    assert DaysBefore(6, leap) == DaysBefore(5, leap) + 31;
    assert DaysBefore(7, leap) == DaysBefore(6, leap) + 30;
    assert DaysBefore(8, leap) == DaysBefore(7, leap) + 31;
    assert DaysBefore(9, leap) == DaysBefore(8, leap) + 31;
    assert DaysBefore(10, leap) == DaysBefore(9, leap) + 30;
    assert DaysBefore(11, leap) == DaysBefore(10, leap) + 31;
    assert DaysBefore(12, leap) == DaysBefore(11, leap) + 30;
  }

  lemma DayOfYear(t: Time)
    requires Valid(t)
    ensures 0 <= DaysBefore(t.month, IsLeap(t.year)) + t.day - 1 < if IsLeap(t.year) then 366 else 365
  {
    YearLength(IsLeap(t.year));
    if t.month < 12 {
      MonthsGrow(t.month, 12, IsLeap(t.year));
    }
  }

  lemma LeapDays(y: nat)
    ensures (y + 1 + 3) / 4 - (y + 3) / 4 == if IsLeap(y) then 1 else 0
  {
  }

  lemma DatesGrow(a: Time, b: Time)
    requires Valid(a) && Valid(b) && DateLess(a, b)
    ensures DayNumber(a) < DayNumber(b)
  {
    hide DaysBefore;
    DayOfYear(a);
    DayOfYear(b);
    if a.year < b.year {
      LeapDays(a.year);
      assert 365 * (a.year + 1) <= 365 * b.year;
    } else if a.month < b.month {
      MonthsGrow(a.month, b.month, IsLeap(a.year));
    }
  }

  function ClockSeconds(t: Time): int {
    t.hour * 3600 + t.minute * 60 + t.second
  }

  lemma InstantOrder(a: Time, b: Time)
    requires Valid(a) && Valid(b)
    ensures Instant(a) < Instant(b) <==> DateLess(a, b) || (SameDate(a, b) && ClockLess(a, b))
  {
    hide DayNumber;
    assert Instant(a) == DayNumber(a) * 86400 + ClockSeconds(a);
    assert Instant(b) == DayNumber(b) * 86400 + ClockSeconds(b);
    if DateLess(a, b) {
      DatesGrow(a, b);
    } else if DateLess(b, a) {
      DatesGrow(b, a);
    } else {
      SameDay(a, b);
    }
  }

  lemma SameDay(a: Time, b: Time)
    requires SameDate(a, b)
    ensures DayNumber(a) == DayNumber(b)
  {
  }

  /** Within a century, keys compare as the times they stand for. */
  lemma KeysAreChronological(a: Time, b: Time)
    requires Valid(a) && Valid(b)
    ensures KeyLess(KeyOf(a), KeyOf(b)) <==> Instant(a) < Instant(b)
    ensures KeyOf(a) == KeyOf(b) <==> a == b
  {
    hide KeyLess, KeyOf, Instant;
    KeyOrder(a, b);
    KeyOrder(b, a);
    InstantOrder(a, b);
    KeyTrichotomy(KeyOf(a), KeyOf(b));
    KeyIrreflexive(KeyOf(a));
  }

  /** A key can be written between quotes as it is. */
  lemma KeysArePlain(t: Time)
    requires Valid(t)
    ensures PlainName(KeyOf(t))
  {
  }
}
