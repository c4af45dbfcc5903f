/** Calendar days and their `yyyy-MM-dd` keys.

    A day is an integer: the number of days since 0000-01-01 in the
    proleptic Gregorian calendar. The pages turn days into `yyyy-MM-dd`
    strings (date-fns `format`, `formatISO` with the date representation,
    the date part of `toISOString`) and compare those strings; this module
    gives the key format a concrete definition on the years 0000-9999, where
    it is ten characters wide, and proves that it is injective and that
    string order on keys is day order. The three formatters agree on the
    years 0001-9999; on year 0000 date-fns `format` writes the year of the
    era, 0001, where the other two write 0000. */
module Calendar {
  import opened Records

  type Day = int

  /** The two opaque date readers the pages use, each giving the local
      calendar day of the Date it builds, or None for an Invalid Date:
      `iso` is date-fns `parseISO`, `loose` is the `Date` constructor. */
  datatype Parsers = Parsers(iso: string -> Option<Day>, loose: string -> Option<Day>)

  predicate IsLeap(y: int) {
    y % 4 == 0 && (y % 100 != 0 || y % 400 == 0)
  }

  function YearLength(y: int): int {
    if IsLeap(y) then 366 else 365
  }

  function MonthLength(y: int, m: int): int
    requires 1 <= m <= 12
  {
    if m == 2 then (if IsLeap(y) then 29 else 28)
    else if m == 4 || m == 6 || m == 9 || m == 11 then 30
    else 31
  }

  /** Days of year `y` before the first day of month `m` (m = 13: the whole year). */
  function DaysBeforeMonth(y: int, m: int): int
    requires 1 <= m <= 13
  {
    [0, 31, 59, 90, 120, 151, 181, 212, 243, 273, 304, 334, 365][m - 1]
      + (if m > 2 && IsLeap(y) then 1 else 0)
  }

  lemma MonthStep(y: int, m: int)
    requires 1 <= m <= 12
    ensures DaysBeforeMonth(y, m + 1) == DaysBeforeMonth(y, m) + MonthLength(y, m)
    ensures DaysBeforeMonth(y, m + 1) <= DaysBeforeMonth(y, 13) == YearLength(y)
  {
  }

  /** Days from 0000-01-01 to the first day of year `y`: 365 per year plus
      one per leap year in [0, y). */
  function DaysBeforeYear(y: nat): int {
    365 * y + (y + 3) / 4 - (y + 99) / 100 + (y + 399) / 400
  }

  lemma CeilStep4(y: nat)
    ensures (y + 4) / 4 == (y + 3) / 4 + (if y % 4 == 0 then 1 else 0)
  {
  }

  lemma CeilStep100(y: nat)
    ensures (y + 100) / 100 == (y + 99) / 100 + (if y % 100 == 0 then 1 else 0)
  {
  }

  lemma CeilStep400(y: nat)
    ensures (y + 400) / 400 == (y + 399) / 400 + (if y % 400 == 0 then 1 else 0)
  {
  }

  /** Every multiple of 400 is a multiple of 100, and every multiple of
      100 a multiple of 4. */
  lemma DivisorChain(y: nat)
    ensures y % 400 == 0 ==> y % 100 == 0
    ensures y % 100 == 0 ==> y % 4 == 0
  {
    if y % 400 == 0 {
      assert y == 100 * (4 * (y / 400));
    }
    if y % 100 == 0 {
      assert y == 4 * (25 * (y / 100));
    }
  }

  lemma YearStep(y: nat)
    ensures DaysBeforeYear(y + 1) == DaysBeforeYear(y) + YearLength(y)
  {
    CeilStep4(y);
    CeilStep100(y);
    CeilStep400(y);
    DivisorChain(y);
    var i4 := if y % 4 == 0 then 1 else 0;
    var i100 := if y % 100 == 0 then 1 else 0;
    var i400 := if y % 400 == 0 then 1 else 0;
    assert i4 - i100 + i400 == YearLength(y) - 365;
    var z: nat := y + 1;
    assert z + 3 == y + 4 && z + 99 == y + 100 && z + 399 == y + 400;
    assert DaysBeforeYear(z) == 365 * z + (y + 4) / 4 - (y + 100) / 100 + (y + 400) / 400;
  }

  lemma {:induction false} DaysBeforeYearMonotone(a: nat, b: nat)
    requires a <= b
    ensures DaysBeforeYear(a) <= DaysBeforeYear(b)
    decreases b - a
  {
    if a < b {
      YearStep(a);
      DaysBeforeYearMonotone(a + 1, b);
    }
  }

  /** The first day of year 10000: keys are four-digit-year strings below it. */
  const DAY_LIMIT: int := 3652425

  predicate InRange(d: Day) {
    0 <= d < DAY_LIMIT
  }

  /** A calendar date as year, month (1-12) and day of month. */
  datatype Civil = Civil(year: int, month: int, day: int)

  predicate ValidCivil(c: Civil) {
    && 0 <= c.year <= 9999
    && 1 <= c.month <= 12
    && 1 <= c.day <= MonthLength(c.year, c.month)
  }

  function DayOfCivil(c: Civil): (d: Day)
    requires ValidCivil(c)
    ensures InRange(d)
    ensures DaysBeforeYear(c.year) <= d < DaysBeforeYear(c.year + 1)
  {
    MonthStep(c.year, c.month);
    YearStep(c.year);
    DaysBeforeYearMonotone(c.year + 1, 10000);
    DaysBeforeYear(c.year) + DaysBeforeMonth(c.year, c.month) + c.day - 1
  }

  /** The year holding day `d`, searching upward from year `y`. */
  function YearOf(d: Day, y: nat): (r: nat)
    requires DaysBeforeYear(y) <= d
    ensures y <= r && DaysBeforeYear(r) <= d < DaysBeforeYear(r + 1)
    decreases d - DaysBeforeYear(y)
  {
    YearStep(y);
    if d < DaysBeforeYear(y + 1) then y else YearOf(d, y + 1)
  }

  /** The month of year `y` holding day-of-year `doy`, searching upward from `m`. */
  function MonthOf(y: int, doy: int, m: int): (r: int)
    requires 1 <= m <= 12
    requires DaysBeforeMonth(y, m) <= doy < DaysBeforeMonth(y, 13)
    ensures m <= r <= 12
    ensures DaysBeforeMonth(y, r) <= doy < DaysBeforeMonth(y, r + 1)
    decreases 12 - m
  {
    if doy < DaysBeforeMonth(y, m + 1) then m else MonthOf(y, doy, m + 1)
  }

  /** The calendar date of a day. */
  function CivilOfDay(d: Day): (c: Civil)
    requires InRange(d)
    ensures ValidCivil(c)
    ensures DayOfCivil(c) == d
  {
    var y := YearOf(d, 0);
    if y > 9999 then
      assert false; Civil(0, 1, 1)
    else
      YearStep(y);
      var doy := d - DaysBeforeYear(y);
      var m := MonthOf(y, doy, 1);
      MonthStep(y, m);
      Civil(y, m, doy - DaysBeforeMonth(y, m) + 1)
  }

  predicate CivilLe(a: Civil, b: Civil) {
    || a.year < b.year
    || (a.year == b.year && a.month < b.month)
    || (a.year == b.year && a.month == b.month && a.day <= b.day)
  }

  lemma DayOfCivilStrict(a: Civil, b: Civil)
    requires ValidCivil(a) && ValidCivil(b)
    requires CivilLe(a, b) && a != b
    ensures DayOfCivil(a) < DayOfCivil(b)
  {
    if a.year < b.year {
      DaysBeforeYearMonotone(a.year + 1, b.year);
    } else if a.month < b.month {
      MonthStep(a.year, a.month);
    }
  }

  /** Day order is the order of calendar dates. */
  lemma CivilOrder(d1: Day, d2: Day)
    requires InRange(d1) && InRange(d2)
    ensures d1 <= d2 <==> CivilLe(CivilOfDay(d1), CivilOfDay(d2))
  {
    var c1, c2 := CivilOfDay(d1), CivilOfDay(d2);
    if CivilLe(c1, c2) && c1 != c2 {
      DayOfCivilStrict(c1, c2);
    } else if !CivilLe(c1, c2) {
      DayOfCivilStrict(c2, c1);
    }
  }

  // ---------------------------------------------------------------------
  // The yyyy-MM-dd key
  // ---------------------------------------------------------------------

  predicate IsDigit(ch: char) {
    '0' <= ch <= '9'
  }

  function Digit(k: int): (ch: char)
    requires 0 <= k <= 9
    ensures IsDigit(ch)
  {
    (k + '0' as int) as char
  }

  function Pad2(n: int): (s: string)
    requires 0 <= n <= 99
    ensures |s| == 2 && IsDigit(s[0]) && IsDigit(s[1])
  {
    [Digit(n / 10), Digit(n % 10)]
  }

  function Pad4(n: int): (s: string)
    requires 0 <= n <= 9999
    ensures |s| == 4 && IsDigit(s[0]) && IsDigit(s[1]) && IsDigit(s[2]) && IsDigit(s[3])
  {
    [Digit(n / 1000), Digit(n / 100 % 10), Digit(n / 10 % 10), Digit(n % 10)]
  }

  /** The shape test `^\d{4}-\d{2}-\d{2}$`: ten characters, ASCII digits
      everywhere except the two dashes. Only the shape is checked. */
  predicate IsDateShape(s: string) {
    && |s| == 10
    && IsDigit(s[0]) && IsDigit(s[1]) && IsDigit(s[2]) && IsDigit(s[3])
    && s[4] == '-'
    && IsDigit(s[5]) && IsDigit(s[6])
    && s[7] == '-'
    && IsDigit(s[8]) && IsDigit(s[9])
  }

  function KeyOfCivil(c: Civil): (key: string)
    requires ValidCivil(c)
    ensures IsDateShape(key)
  {
    var y, m, d := Pad4(c.year), Pad2(c.month), Pad2(c.day);
    var key := y + "-" + m + "-" + d;
    assert key[..4] == y && key[5..7] == m && key[8..] == d;
    assert key[4] == '-' && key[7] == '-';
    key
  }

  /** The `yyyy-MM-dd` key of a day. */
  function Format(d: Day): (key: string)
    requires InRange(d)
    ensures IsDateShape(key)
  {
    KeyOfCivil(CivilOfDay(d))
  }

  // ---------------------------------------------------------------------
  // Numeric value of digit strings
  // ---------------------------------------------------------------------

  function Code(ch: char): int {
    if IsDigit(ch) then ch as int - '0' as int else 0
  }

  function Pow10(n: nat): (p: nat)
    ensures p >= 1
  {
    if n == 0 then 1 else 10 * Pow10(n - 1)
  }

  /** A string read as a decimal numeral; non-digits read as 0. */
  function Val(s: string): int
    decreases |s|
  {
    if |s| == 0 then 0 else Code(s[0]) * Pow10(|s| - 1) + Val(s[1..])
  }

  lemma MulBelow(c: int, k: int, p: int)
    requires 0 <= c <= k && p >= 0
    ensures 0 <= c * p <= k * p
  {
  }

  lemma {:induction false} ValBounds(s: string)
    ensures 0 <= Val(s) < Pow10(|s|)
    decreases |s|
  {
    if |s| > 0 {
      ValBounds(s[1..]);
      var c, p := Code(s[0]), Pow10(|s| - 1);
      assert Val(s) == c * p + Val(s[1..]);
      assert Pow10(|s|) == 10 * p;
      assert 0 <= c <= 9;
      assert 0 <= c * p <= 9 * p by {
        MulBelow(c, 9, p);
      }
    }
  }

  /** Position-aligned strings: at every index both characters are digits or
      both are the same character. */
  predicate Aligned(a: string, b: string) {
    && |a| == |b|
    && forall i :: 0 <= i < |a| ==> (IsDigit(a[i]) && IsDigit(b[i])) || a[i] == b[i]
  }

  /** JavaScript `<` on strings: lexicographic by character. */
  predicate LexLt(a: string, b: string)
    decreases |a|
  {
    if |a| == 0 then |b| > 0
    else if |b| == 0 then false
    else if a[0] != b[0] then a[0] < b[0]
    else LexLt(a[1..], b[1..])
  }

  /** JavaScript `<=` on strings. */
  predicate LexLe(a: string, b: string) {
    a == b || LexLt(a, b)
  }

  lemma MulGap(x: int, y: int, p: int, r: int)
    requires 0 <= x < y && p >= 1 && 0 <= r < p
    ensures x * p + r < y * p
  {
    var k := y - x - 1;
    assert k >= 0;
    assert k * p >= 0;
    assert y * p == x * p + p + k * p;
  }

  /** On aligned strings, lexicographic order is numeric order. */
  lemma {:induction false} LexIsNumeric(a: string, b: string)
    requires Aligned(a, b)
    ensures LexLe(a, b) <==> Val(a) <= Val(b)
    decreases |a|
  {
    if |a| > 0 {
      assert Aligned(a[1..], b[1..]) by {
        forall i | 0 <= i < |a| - 1
          ensures (IsDigit(a[1..][i]) && IsDigit(b[1..][i])) || a[1..][i] == b[1..][i]
        {
          assert a[1..][i] == a[i + 1] && b[1..][i] == b[i + 1];
        }
      }
      var p := Pow10(|a| - 1);
      ValBounds(a[1..]);
      ValBounds(b[1..]);
      if a[0] == b[0] {
        LexIsNumeric(a[1..], b[1..]);
        assert a == b <==> a[1..] == b[1..] by {
          if a[1..] == b[1..] {
            assert a == [a[0]] + a[1..] && b == [b[0]] + b[1..];
          }
        }
      } else {
        assert IsDigit(a[0]) && IsDigit(b[0]);
        if a[0] < b[0] {
          MulGap(Code(a[0]), Code(b[0]), p, Val(a[1..]));
        } else {
          MulGap(Code(b[0]), Code(a[0]), p, Val(b[1..]));
        }
      }
    }
  }

  lemma Distrib(c: int, a: int, b: int, v: int)
    ensures c * (a * b) + v * b == (c * a + v) * b
  {
  }

  lemma {:induction false} ValAppend(p: string, q: string)
    ensures Val(p + q) == Val(p) * Pow10(|q|) + Val(q)
    decreases |p|
  {
    if |p| == 0 {
      assert p + q == q;
    } else {
      var pq := p + q;
      assert pq[0] == p[0];
      assert pq[1..] == p[1..] + q;
      assert |pq| - 1 == (|p| - 1) + |q|;
      ValAppend(p[1..], q);
      Pow10Add(|p| - 1, |q|);
      var c, a, b := Code(p[0]), Pow10(|p| - 1), Pow10(|q|);
      assert Val(pq) == c * (a * b) + (Val(p[1..]) * b + Val(q));
      Distrib(c, a, b, Val(p[1..]));
      assert Val(p) == c * a + Val(p[1..]);
    }
  }

  lemma {:induction false} Pow10Add(a: nat, b: nat)
    ensures Pow10(a + b) == Pow10(a) * Pow10(b)
    decreases a
  {
    if a > 0 {
      Pow10Add(a - 1, b);
      assert Pow10(a + b) == 10 * Pow10(a - 1 + b);
    }
  }

  lemma ValDigit(k: int)
    requires 0 <= k <= 9
    ensures Val([Digit(k)]) == k
  {
    assert [Digit(k)][1..] == [];
  }

  lemma ValPad2(n: int)
    requires 0 <= n <= 99
    ensures Val(Pad2(n)) == n
  {
    assert Pad2(n) == [Digit(n / 10)] + [Digit(n % 10)];
    ValAppend([Digit(n / 10)], [Digit(n % 10)]);
    ValDigit(n / 10);
    ValDigit(n % 10);
  }

  lemma DigitArith(n: int)
    requires 0 <= n <= 9999
    ensures n / 100 / 10 == n / 1000
    ensures n % 100 / 10 == n / 10 % 10
    ensures n % 100 % 10 == n % 10
    ensures n == n / 100 * 100 + n % 100
  {
    var q, r := n / 100, n % 100;
    var hi, mid := q / 10, q % 10;
    DivBy1000(n, hi, 100 * mid + r);
    var tens, ones := r / 10, r % 10;
    DivBy10(n, 10 * q + tens, ones);
    DivBy10(10 * q + tens, q, tens);
  }

  /** Division by ten is determined by any quotient and remainder in range. */
  lemma DivBy10(n: int, q: int, r: int)
    requires n == 10 * q + r && 0 <= r < 10
    ensures n / 10 == q && n % 10 == r
  {
  }

  lemma DivBy1000(n: int, q: int, r: int)
    requires n == 1000 * q + r && 0 <= r < 1000
    ensures n / 1000 == q && n % 1000 == r
  {
  }

  lemma ValPad4(n: int)
    requires 0 <= n <= 9999
    ensures Val(Pad4(n)) == n
  {
    DigitArith(n);
    assert Pad4(n) == Pad2(n / 100) + Pad2(n % 100);
    ValAppend(Pad2(n / 100), Pad2(n % 100));
    ValPad2(n / 100);
    ValPad2(n % 100);
    assert Pow10(|Pad2(n % 100)|) == 100;
  }

  lemma ShapedAligned(a: string, b: string)
    requires IsDateShape(a) && IsDateShape(b)
    ensures Aligned(a, b)
  {
  }

  /** The calendar fields a shaped key spells, read from its digit groups. */
  function KeyFields(s: string): (c: Civil)
    requires IsDateShape(s)
  {
    Civil(Val(s[..4]), Val(s[5..7]), Val(s[8..]))
  }

  lemma {:induction false} ShapedVal(s: string)
    requires IsDateShape(s)
    ensures Val(s) == KeyFields(s).year * 1000000 + KeyFields(s).month * 1000 + KeyFields(s).day
    ensures 0 <= KeyFields(s).month <= 99 && 0 <= KeyFields(s).day <= 99
  {
    assert s == s[..4] + [s[4]] + s[5..7] + [s[7]] + s[8..];
    ValAppend(s[..4], [s[4]]);
    ValAppend(s[..4] + [s[4]], s[5..7]);
    ValAppend(s[..4] + [s[4]] + s[5..7], [s[7]]);
    ValAppend(s[..4] + [s[4]] + s[5..7] + [s[7]], s[8..]);
    assert Val([s[4]]) == 0 && Val([s[7]]) == 0 by {
      assert [s[4]][1..] == [] && [s[7]][1..] == [];
    }
    ValBounds(s[5..7]);
    ValBounds(s[8..]);
  }

  /** For fixed-width `yyyy-MM-dd` strings, string `<=` is chronological
      order of the (year, month, day) they spell. */
  lemma ShapedLexIsChronological(a: string, b: string)
    requires IsDateShape(a) && IsDateShape(b)
    ensures LexLe(a, b) <==> CivilLe(KeyFields(a), KeyFields(b))
  {
    ShapedAligned(a, b);
    LexIsNumeric(a, b);
    ShapedVal(a);
    ShapedVal(b);
  }

  lemma KeyFieldsOfKey(c: Civil)
    requires ValidCivil(c)
    ensures IsDateShape(KeyOfCivil(c)) && KeyFields(KeyOfCivil(c)) == c
  {
    var k := KeyOfCivil(c);
    assert k[..4] == Pad4(c.year);
    assert k[5..7] == Pad2(c.month);
    assert k[8..] == Pad2(c.day);
    ValPad4(c.year);
    ValPad2(c.month);
    ValPad2(c.day);
  }

  /** String order on keys is day order. */
  lemma FormatOrder(d1: Day, d2: Day)
    requires InRange(d1) && InRange(d2)
    ensures d1 <= d2 <==> LexLe(Format(d1), Format(d2))
  {
    CivilOrder(d1, d2);
    KeyFieldsOfKey(CivilOfDay(d1));
    KeyFieldsOfKey(CivilOfDay(d2));
    ShapedLexIsChronological(Format(d1), Format(d2));
  }

  /** A date-only key read back as a day: None when the string is not of the
      `yyyy-MM-dd` shape or names no calendar date (month 13, February 30). */
  function ParseKey(s: string): (r: Option<Day>)
    ensures r.Some? ==> IsDateShape(s) && InRange(r.value)
    ensures r.Some? ==> CivilOfDay(r.value) == KeyFields(s)
  {
    if !IsDateShape(s) then None
    else
      var c := KeyFields(s);
      if ValidCivil(c) then CivilRoundTrip(c); Some(DayOfCivil(c)) else None
  }

  lemma CivilRoundTrip(c: Civil)
    requires ValidCivil(c)
    ensures CivilOfDay(DayOfCivil(c)) == c
  {
    var c' := CivilOfDay(DayOfCivil(c));
    if c' != c {
      if CivilLe(c, c') {
        DayOfCivilStrict(c, c');
      } else {
        DayOfCivilStrict(c', c);
      }
    }
  }

  /** Reading a key back gives the day it was made from. */
  lemma {:induction false} ParseFormat(d: Day)
    requires InRange(d)
    ensures ParseKey(Format(d)) == Some(d)
  {
    KeyFieldsOfKey(CivilOfDay(d));
  }

  /** Distinct days have distinct keys. */
  lemma FormatInjective(d1: Day, d2: Day)
    requires InRange(d1) && InRange(d2)
    ensures Format(d1) == Format(d2) <==> d1 == d2
  {
    if Format(d1) == Format(d2) {
      ParseFormat(d1);
      ParseFormat(d2);
    }
  }

  // ---------------------------------------------------------------------
  // Weeks (date-fns startOfWeek / endOfWeek with weekStartsOn = 0)
  // ---------------------------------------------------------------------

  /** 0 = Sunday ... 6 = Saturday; 0000-01-01 (day 0) was a Saturday. */
  function Weekday(d: Day): (w: int)
    ensures 0 <= w < 7
  {
    (d + 6) % 7
  }

  /** The Sunday on or before `d`. */
  function StartOfWeek(d: Day): (s: Day)
    ensures s <= d < s + 7
    ensures Weekday(s) == 0
  {
    d - Weekday(d)
  }

  /** The Saturday on or after `d`, the last day of its week. */
  function EndOfWeek(d: Day): (e: Day)
    ensures d <= e < d + 7
    ensures Weekday(e) == 6
    ensures e - StartOfWeek(d) == 6
  {
    StartOfWeek(d) + 6
  }
}
