/**
 * Calendar dates, their `YYYY-MM-DD` rendering, JavaScript's string order, and the instant
 * a date denotes when JavaScript parses it (`new Date("YYYY-MM-DD")` is midnight UTC).
 */
module Calendar {

  /** Milliseconds since 1970-01-01T00:00:00Z: the value of a JavaScript `Date`. */
  type Instant = int

  const MsPerHour: int := 3600000
  const MsPerDay: int := 24 * MsPerHour

  /** `addHours(t, h)` of date-fns. */
  function AddHours(t: Instant, h: int): (r: Instant)
    ensures h > 0 ==> r > t
  {
    t + h * MsPerHour
  }

  datatype Date = Date(year: int, month: int, day: int)

  predicate IsLeapYear(y: int) {
    y % 4 == 0 && (y % 100 != 0 || y % 400 == 0)
  }

  function DaysInYear(y: int): int {
    if IsLeapYear(y) then 366 else 365
  }

  function DaysInMonth(y: int, m: int): int {
    if m == 2 then (if IsLeapYear(y) then 29 else 28)
    else if m == 4 || m == 6 || m == 9 || m == 11 then 30
    else 31
  }

  /** A date of the proleptic Gregorian calendar with a four-digit year. */
  predicate IsValid(d: Date) {
    0 <= d.year <= 9999 && 1 <= d.month <= 12 && 1 <= d.day <= DaysInMonth(d.year, d.month)
  }

  type ValidDate = d: Date | IsValid(d) witness Date(1970, 1, 1)

  /** Chronological order: `a` falls on or before `b`. */
  predicate OnOrBefore(a: Date, b: Date) {
    a.year < b.year || (a.year == b.year && (a.month < b.month || (a.month == b.month && a.day <= b.day)))
  }

  /** Chronological order: `a` falls strictly before `b`. */
  predicate Before(a: Date, b: Date) {
    OnOrBefore(a, b) && a != b
  }

  // ---------------------------------------------------------------------------------------
  // Rendering as YYYY-MM-DD, and JavaScript's comparison of strings
  // ---------------------------------------------------------------------------------------

  function Pow10(w: nat): (p: nat)
    ensures p >= 1
  {
    if w == 0 then 1 else 10 * Pow10(w - 1)
  }

  function Digit(n: int): char
    requires 0 <= n < 10
  {
    ('0' as int + n) as char
  }

  /** `n` written with exactly `w` decimal digits, zero-padded on the left. */
  function Digits(n: nat, w: nat): (s: string)
    requires n < Pow10(w)
    ensures |s| == w
  {
    if w == 0 then [] else Digits(n / 10, w - 1) + [Digit(n % 10)]
  }

  /** The `YYYY-MM-DD` form of a date, as `toISOString().split('T')[0]` gives it. */
  function Iso(d: ValidDate): (s: string)
    ensures |s| == 10 && s[4] == '-' && s[7] == '-'
  {
    Digits(d.year, 4) + ("-" + (Digits(d.month, 2) + ("-" + Digits(d.day, 2))))
  }

  /** JavaScript's `a < b` on strings: code unit by code unit, a proper prefix first. */
  predicate JsLess(a: string, b: string) {
    if a == [] then b != []
    else if b == [] then false
    else if a[0] != b[0] then a[0] < b[0]
    else JsLess(a[1..], b[1..])
  }

  /** JavaScript's `a <= b` on strings, which is `!(b < a)`. */
  predicate JsLessEq(a: string, b: string) {
    !JsLess(b, a)
  }

  lemma {:induction false} JsLessIrreflexive(a: string)
    ensures !JsLess(a, a)
  {
    if a != [] {
      JsLessIrreflexive(a[1..]);
    }
  }

  /** Comparing two strings that start with prefixes of equal length compares the prefixes first. */
  lemma {:induction false} JsLessAppend(p: string, s: string, q: string, t: string)
    requires |p| == |q|
    ensures JsLess(p + s, q + t) <==> JsLess(p, q) || (p == q && JsLess(s, t))
  {
    if p == [] {
      assert p + s == s && q + t == t;
    } else {
      assert (p + s)[0] == p[0] && (q + t)[0] == q[0];
      assert (p + s)[1..] == p[1..] + s && (q + t)[1..] == q[1..] + t;
      JsLessAppend(p[1..], s, q[1..], t);
      if p[0] == q[0] {
        assert p == q <==> p[1..] == q[1..] by {
          if p[1..] == q[1..] {
            assert p == [p[0]] + p[1..] && q == [q[0]] + q[1..];
          }
        }
      }
    }
  }

  /** Fixed-width decimal numerals compare as strings exactly as the numbers do. */
  lemma {:induction false} DigitsOrder(n: nat, m: nat, w: nat)
    requires n < Pow10(w) && m < Pow10(w)
    ensures JsLess(Digits(n, w), Digits(m, w)) <==> n < m
    ensures Digits(n, w) == Digits(m, w) <==> n == m
  {
    if w > 0 {
      DigitsOrder(n / 10, m / 10, w - 1);
      var p, q := Digits(n / 10, w - 1), Digits(m / 10, w - 1);
      var a, b := [Digit(n % 10)], [Digit(m % 10)];
      JsLessAppend(p, a, q, b);
      JsLessIrreflexive(p);
      JsLessIrreflexive(q);
      assert JsLess(a, b) <==> n % 10 < m % 10 by {
        assert a[1..] == [] && b[1..] == [];
      }
      assert a == b <==> n % 10 == m % 10;
      assert p + a == q + b <==> p == q && a == b by {
        if p + a == q + b {
          assert (p + a)[..w - 1] == p && (q + b)[..w - 1] == q;
          assert (p + a)[w - 1..] == a && (q + b)[w - 1..] == b;
        }
      }
      assert n == 10 * (n / 10) + n % 10 && m == 10 * (m / 10) + m % 10;
    }
  }

  /** On valid dates, comparing `YYYY-MM-DD` strings is comparing the dates chronologically. */
  lemma IsoOrder(a: ValidDate, b: ValidDate)
    ensures JsLess(Iso(a), Iso(b)) <==> Before(a, b)
    ensures Iso(a) == Iso(b) <==> a == b
  {
    var ya, yb := Digits(a.year, 4), Digits(b.year, 4);
    var ma, mb := Digits(a.month, 2), Digits(b.month, 2);
    var da, db := Digits(a.day, 2), Digits(b.day, 2);
    DigitsOrder(a.year, b.year, 4);
    DigitsOrder(a.month, b.month, 2);
    DigitsOrder(a.day, b.day, 2);
    JsLessIrreflexive("-");
    var ra, rb := "-" + (ma + ("-" + da)), "-" + (mb + ("-" + db));
    var sa, sb := ma + ("-" + da), mb + ("-" + db);
    var ta, tb := "-" + da, "-" + db;
    JsLessAppend(ya, ra, yb, rb);
    JsLessAppend("-", sa, "-", sb);
    JsLessAppend(ma, ta, mb, tb);
    JsLessAppend("-", da, "-", db);
    SplitEqual(ya, ra, yb, rb);
    SplitEqual("-", sa, "-", sb);
    SplitEqual(ma, ta, mb, tb);
    SplitEqual("-", da, "-", db);
  }

  lemma SplitEqual(p: string, s: string, q: string, t: string)
    requires |p| == |q|
    ensures p + s == q + t <==> p == q && s == t
  {
    if p + s == q + t {
      assert (p + s)[..|p|] == p && (q + t)[..|q|] == q;
      assert (p + s)[|p|..] == s && (q + t)[|q|..] == t;
    }
  }

  /** The deadline-day test `today <= deadline` of two `YYYY-MM-DD` strings is chronological. */
  lemma IsoLessEq(a: ValidDate, b: ValidDate)
    ensures JsLessEq(Iso(a), Iso(b)) <==> OnOrBefore(a, b)
  {
    IsoOrder(b, a);
  }

  // ---------------------------------------------------------------------------------------
  // Day numbers and the instant of a date
  // ---------------------------------------------------------------------------------------

  /** Days from 0000-01-01 to y-01-01: 365 per year plus one per leap year before y. */
  function DaysBeforeYear(y: nat): int {
    365 * y + (y + 3) / 4 - (y + 99) / 100 + (y + 399) / 400
  }

  /** Days from the first of January of `y` to the first day of month `m`. */
  function DaysBeforeMonth(y: int, m: int): int
    requires 1 <= m <= 12
  {
    (if m == 1 then 0 else if m == 2 then 31 else if m == 3 then 59 else if m == 4 then 90
     else if m == 5 then 120 else if m == 6 then 151 else if m == 7 then 181 else if m == 8 then 212
     else if m == 9 then 243 else if m == 10 then 273 else if m == 11 then 304 else 334)
    + (if m > 2 && IsLeapYear(y) then 1 else 0)
  }

  /** Days since 1970-01-01 (negative before it). */
  function DayNumber(d: ValidDate): int {
    DaysBeforeYear(d.year) + DaysBeforeMonth(d.year, d.month) + d.day - 1 - DaysBeforeYear(1970)
  }

  /** `new Date("YYYY-MM-DD")`: midnight UTC at the start of the date. */
  function Midnight(d: ValidDate): Instant {
    DayNumber(d) * MsPerDay
  }

  /** One year on, `(y + n - 1) / n` (the multiples of `n` below `y`) grows by one exactly when `n` divides `y`. */
  lemma MultiplesStep4(y: nat)
    ensures (y + 4) / 4 == (y + 3) / 4 + (if y % 4 == 0 then 1 else 0)
  {
    var q := y / 4;
    assert y == 4 * q + y % 4;
  }

  lemma MultiplesStep100(y: nat)
    ensures (y + 100) / 100 == (y + 99) / 100 + (if y % 100 == 0 then 1 else 0)
  {
    var q := y / 100;
    assert y == 100 * q + y % 100;
  }

  lemma MultiplesStep400(y: nat)
    ensures (y + 400) / 400 == (y + 399) / 400 + (if y % 400 == 0 then 1 else 0)
  {
    var q := y / 400;
    assert y == 400 * q + y % 400;
  }

  /** A multiple of 400 is one of 100, and a multiple of 100 one of 4. */
  lemma MultiplesNest(y: nat)
    ensures y % 400 == 0 ==> y % 100 == 0
    ensures y % 100 == 0 ==> y % 4 == 0
  {
    if y % 400 == 0 {
      var k := y / 400;
      assert y == 100 * (4 * k);
    }
    if y % 100 == 0 {
      var k := y / 100;
      assert y == 4 * (25 * k);
    }
  }

  lemma DaysBeforeYearStep(y: nat)
    ensures DaysBeforeYear(y + 1) == DaysBeforeYear(y) + DaysInYear(y)
  {
    MultiplesStep4(y);
    MultiplesStep100(y);
    MultiplesStep400(y);
    MultiplesNest(y);
    var leap := if IsLeapYear(y) then 1 else 0;
    assert (if y % 4 == 0 then 1 else 0) - (if y % 100 == 0 then 1 else 0) + (if y % 400 == 0 then 1 else 0) == leap;
    assert DaysBeforeYear(y + 1) == 365 * y + 365 + (y + 4) / 4 - (y + 100) / 100 + (y + 400) / 400;
  }

  /** A whole year `a` ends no later than any later year begins. */
  lemma {:induction false} DaysBeforeYearMono(a: nat, b: nat)
    requires a < b
    ensures DaysBeforeYear(a) + DaysInYear(a) <= DaysBeforeYear(b)
    decreases b - a
  {
    DaysBeforeYearStep(a);
    if a + 1 < b {
      DaysBeforeYearMono(a + 1, b);
      DaysBeforeYearStep(a + 1);
    }
  }

  lemma DaysBeforeMonthMono(y: int, a: int, b: int)
    requires 1 <= a <= 12 && 1 <= b <= 12
    ensures a < b ==> DaysBeforeMonth(y, a) + DaysInMonth(y, a) <= DaysBeforeMonth(y, b)
    ensures DaysBeforeMonth(y, a) + DaysInMonth(y, a) <= DaysInYear(y)
  {
  }

  /** Later dates have larger day numbers. */
  lemma DayNumberMono(a: ValidDate, b: ValidDate)
    requires Before(a, b)
    ensures DayNumber(a) < DayNumber(b)
  {
    DaysBeforeMonthMono(a.year, a.month, b.month);
    if a.year < b.year {
      DaysBeforeYearMono(a.year, b.year);
    }
  }

  /** The instants of two dates are a whole number of days apart, in calendar order. */
  lemma MidnightMono(a: ValidDate, b: ValidDate)
    requires Before(a, b)
    ensures Midnight(a) + MsPerDay <= Midnight(b)
  {
    DayNumberMono(a, b);
    assert (DayNumber(a) + 1) * MsPerDay <= DayNumber(b) * MsPerDay;
  }

  /** JavaScript's `new Date(a) < new Date(b)` on two dates is the calendar order. */
  lemma MidnightOrder(a: ValidDate, b: ValidDate)
    ensures Midnight(a) < Midnight(b) <==> Before(a, b)
  {
    if Before(a, b) {
      MidnightMono(a, b);
    } else if a != b {
      assert Before(b, a);
      MidnightMono(b, a);
    }
  }
}
