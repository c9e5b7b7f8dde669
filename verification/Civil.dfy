/** Gregorian day arithmetic: days since 1970-01-01 and back. */
module Civil {
  import opened Arithmetic

  datatype Date = Date(year: int, month: nat, day: nat)

  /** Integer division that truncates toward zero, as in C++. */
  function TruncatedDiv(a: int, b: nat): int
    requires b > 0
  {
    if a >= 0 then a / b else -(-a / b)
  }

  function DaysFromCivil(date: Date): int
    requires 1 <= date.month <= 12
  {
    var y := if date.month <= 2 then date.year - 1 else date.year;
    var era := TruncatedDiv(if y >= 0 then y else y - 399, 400);
    var yoe := y - era * 400;
    var doy := (153 * (if date.month > 2 then date.month - 3 else date.month + 9) + 2) / 5 + date.day - 1;
    var doe := yoe * 365 + yoe / 4 - yoe / 100 + doy;
    era * 146097 + doe - 719468
  }

  /** The year within a 400-year era that day `doe` of the era falls in. */
  function EraYear(doe: int): int {
    (doe - doe / 1460 + doe / 36524 - doe / 146096) / 365
  }

  function CivilFromDays(days: int): Date
  {
    var z := days + 719468;
    var era := TruncatedDiv(if z >= 0 then z else z - 146096, 146097);
    var doe := z - era * 146097;
    var yoe := EraYear(doe);
    var y := yoe + era * 400;
    var doy := doe - (365 * yoe + yoe / 4 - yoe / 100);
    var mp := (5 * doy + 2) / 153;
    var d := doy - (153 * mp + 2) / 5 + 1;
    var m := if mp < 10 then mp + 3 else mp - 9;
    assert 0 <= doe < 146097;
    YearOfEra(doe);
    MonthOfYear(doy);
    Date(if m <= 2 then y + 1 else y, m, d)
  }

  // The calendar itself: what a valid date is, and which date follows which.

  predicate LeapYear(year: int) {
    year % 4 == 0 && (year % 100 != 0 || year % 400 == 0)
  }

  function DaysInMonth(year: int, month: nat): nat
    requires 1 <= month <= 12
  {
    if month == 2 then if LeapYear(year) then 29 else 28
    else if month in {4, 6, 9, 11} then 30
    else 31
  }

  predicate Valid(date: Date) {
    1 <= date.month <= 12 && 1 <= date.day <= DaysInMonth(date.year, date.month)
  }

  function Tomorrow(date: Date): Date
    requires Valid(date)
  {
    if date.day < DaysInMonth(date.year, date.month) then date.(day := date.day + 1)
    else if date.month < 12 then Date(date.year, date.month + 1, 1)
    else Date(date.year + 1, 1, 1)
  }

  predicate Before(a: Date, b: Date) {
    || a.year < b.year
    || (a.year == b.year && a.month < b.month)
    || (a.year == b.year && a.month == b.month && a.day < b.day)
  }

  // Years that begin in March, so that a leap day is the last day of its year.

  /** Days before March 1 of year `y`, counted from March 1 of year 0. */
  function YearStart(y: int): int {
    365 * y + y / 4 - y / 100 + y / 400
  }

  function MonthStart(mp: nat): nat {
    (153 * mp + 2) / 5
  }

  lemma YearLength(y: int)
    ensures YearStart(y + 1) == YearStart(y) + 365 + (if LeapYear(y + 1) then 1 else 0)
  {
    FloorStep(y, 4);
    FloorStep(y, 100);
    FloorStep(y, 400);
    Divisors(y + 1);
  }

  lemma FloorStep(y: int, n: nat)
    requires n in {4, 100, 400}
    ensures (y + 1) / n == y / n + (if (y + 1) % n == 0 then 1 else 0)
  {
    if (y + 1) % n == 0 {
      Quotient(y, n, (y + 1) / n - 1);
    } else {
      Quotient(y, n, (y + 1) / n);
    }
  }

  lemma Divisors(y: int)
    ensures y % 400 == 0 ==> y % 100 == 0
    ensures y % 100 == 0 ==> y % 4 == 0
  {
    assert y == 400 * (y / 400) + y % 400 && y == 100 * (y / 100) + y % 100;
    if y % 400 == 0 {
      Quotient(y, 100, 4 * (y / 400));
    }
    if y % 100 == 0 {
      Quotient(y, 4, 25 * (y / 100));
    }
  }

  lemma {:induction false} YearStartMonotone(a: int, b: int)
    requires a <= b
    ensures YearStart(a) + 365 * (b - a) <= YearStart(b)
    decreases b - a
  {
    if a < b {
      YearStartMonotone(a, b - 1);
      YearLength(b - 1);
    }
  }

  /** Position in a 400-year era, split into centuries, four-year groups and years. */
  lemma YearStartOfEra(c: nat, q: nat, s: nat)
    requires c < 4 && q < 25 && s < 4
    ensures var yoe := 100 * c + 4 * q + s;
            365 * yoe + yoe / 4 - yoe / 100 == 36524 * c + 1461 * q + 365 * s
  {
    var yoe := 100 * c + 4 * q + s;
    assert yoe / 4 == 25 * c + q;
    assert yoe / 100 == c;
  }

  /** The division formula finds the year from the day of the era. */
  lemma YearFormula(c: nat, q: nat, s: nat, doy: nat)
    requires c < 4 && q < 25 && s < 4 && doy <= 365
    requires doy == 365 ==> s == 3 && (q < 24 || c == 3)
    ensures var doe := 36524 * c + 1461 * q + 365 * s + doy;
            doe < 146097 && EraYear(doe) == 100 * c + 4 * q + s
  {
    hide EraYear;
    var doe := 36524 * c + 1461 * q + 365 * s + doy;
    var e := if 24 * c + q + 365 * s + doy < 1460 then 0 else 1;
    var last := if doe < 146096 then 0 else 1;
    Quotient(doe, 1460, 25 * c + q + e);
    Quotient(doe, 36524, c + last);
    Quotient(doe, 146096, last);
    EraYearIs(doe, 25 * c + q + e, c + last, last, 100 * c + 4 * q + s);
  }

  lemma EraYearIs(doe: nat, a: int, b: int, l: int, year: int)
    requires doe / 1460 == a && doe / 36524 == b && doe / 146096 == l
    requires 365 * year <= doe - a + b - l < 365 * year + 365
    ensures EraYear(doe) == year
  {
    Quotient(doe - a + b - l, 365, year);
  }

  lemma LeapDay(c: nat, q: nat)
    requires c < 4 && q < 25
    ensures LeapYear(100 * c + 4 * q + 4) <==> q < 24 || c == 3
  {
    var y := 100 * c + 4 * q + 4;
    Quotient(y, 4, 25 * c + q + 1);
    Quotient(y, 100, if q < 24 then c else c + 1);
    Quotient(y, 400, if q < 24 || c < 3 then 0 else 1);
  }

  lemma YearOfEra(doe: nat)
    requires doe < 146097
    ensures var yoe := EraYear(doe);
            var doy := doe - (365 * yoe + yoe / 4 - yoe / 100);
            0 <= yoe < 400 && 0 <= doy < 365 + (if LeapYear(yoe + 1) then 1 else 0)
  {
    var c := if doe / 36524 < 4 then doe / 36524 else 3;
    var r := doe - 36524 * c;
    var q := if r / 1461 < 25 then r / 1461 else 24;
    var t := r - 1461 * q;
    var s := if t / 365 < 4 then t / 365 else 3;
    hide EraYear, LeapYear;
    YearFormula(c, q, s, t - 365 * s);
    YearStartOfEra(c, q, s);
    LeapDay(c, q);
  }

  lemma MonthOfYear(doy: nat)
    requires doy <= 365
    ensures var mp := (5 * doy + 2) / 153;
            mp < 12 && MonthStart(mp) <= doy < MonthStart(mp + 1)
  {
  }

  lemma MonthLengths(year: int, month: nat)
    requires 1 <= month <= 12 && month != 2
    ensures var mp := if month > 2 then month - 3 else month + 9;
            MonthStart(mp + 1) == MonthStart(mp) + DaysInMonth(year, month)
  {
  }

  // The two functions against the calendar.

  /** `days_from_civil` as a March-based year, month and day. */
  lemma DaysFromMarch(date: Date)
    requires 1 <= date.month <= 12
    ensures var y := if date.month <= 2 then date.year - 1 else date.year;
            var mp := if date.month > 2 then date.month - 3 else date.month + 9;
            DaysFromCivil(date) == YearStart(y) + MonthStart(mp) + date.day - 1 - 719468
  {
    var y := if date.month <= 2 then date.year - 1 else date.year;
    EraIsFloor(y, 400);
    EraSplitsYear(y / 400, y % 400);
  }

  lemma EraIsFloor(y: int, n: nat)
    requires n > 0
    ensures TruncatedDiv(if y >= 0 then y else y - (n - 1), n) == y / n
  {
    if y < 0 {
      var k := -(y / n);
      assert y == n * (y / n) + y % n;
      assert n * k == -(n * (y / n));
      Quotient(n - 1 - y, n, k);
    }
  }

  lemma EraSplitsYear(era: int, yoe: nat)
    requires yoe < 400
    ensures YearStart(400 * era + yoe) == era * 146097 + yoe * 365 + yoe / 4 - yoe / 100
  {
    var y := 400 * era + yoe;
    Quotient(y, 400, era);
    Quotient(y, 100, 4 * era + yoe / 100);
    Quotient(y, 4, 100 * era + yoe / 4);
  }

  /** A valid date lies within its March-based year. */
  lemma WithinYear(date: Date)
    requires Valid(date)
    ensures var y := if date.month <= 2 then date.year - 1 else date.year;
            YearStart(y) <= DaysFromCivil(date) + 719468 < YearStart(y + 1)
  {
    var y := if date.month <= 2 then date.year - 1 else date.year;
    DaysFromMarch(date);
    YearLength(y);
  }

  lemma Epoch()
    ensures DaysFromCivil(Date(1970, 1, 1)) == 0
  {
  }

  /** The day count begins with 0 on 1970-01-01 and grows by one from each date to the next. */
  lemma CountsDays(date: Date)
    requires Valid(date)
    ensures DaysFromCivil(Date(1970, 1, 1)) == 0
    ensures Valid(Tomorrow(date)) && DaysFromCivil(Tomorrow(date)) == DaysFromCivil(date) + 1
  {
    hide DaysFromCivil, YearStart;
    Epoch();
    DaysFromMarch(date);
    DaysFromMarch(Tomorrow(date));
    if date.month == 2 {
      YearLength(date.year - 1);
    } else {
      MonthLengths(date.year, date.month);
    }
  }

  lemma FirstOfNextMonth(year: int, month: nat)
    requires 1 <= month < 12
    ensures DaysFromCivil(Date(year, month + 1, 1)) == DaysFromCivil(Date(year, month, 1)) + DaysInMonth(year, month)
  {
    hide DaysFromCivil, YearStart;
    DaysFromMarch(Date(year, month, 1));
    DaysFromMarch(Date(year, month + 1, 1));
    if month == 2 {
      YearLength(year - 1);
    } else {
      MonthLengths(year, month);
    }
  }

  /** January 1, from the count of leap years before it. */
  lemma FirstOfYear(year: int)
    ensures DaysFromCivil(Date(year, 1, 1)) == YearStart(year - 1) - 719162
  {
    DaysFromMarch(Date(year, 1, 1));
  }

  lemma PreservesOrder(a: Date, b: Date)
    requires Valid(a) && Valid(b)
    ensures Before(a, b) <==> DaysFromCivil(a) < DaysFromCivil(b)
  {
    if Before(a, b) {
      BeforeIsLess(a, b);
    } else if Before(b, a) {
      BeforeIsLess(b, a);
    }
  }

  lemma BeforeIsLess(a: Date, b: Date)
    requires Valid(a) && Valid(b) && Before(a, b)
    ensures DaysFromCivil(a) < DaysFromCivil(b)
  {
    hide DaysFromCivil, YearStart;
    var ya := if a.month <= 2 then a.year - 1 else a.year;
    var yb := if b.month <= 2 then b.year - 1 else b.year;
    if ya < yb {
      WithinYear(a);
      WithinYear(b);
      YearStartMonotone(ya + 1, yb);
    } else {
      DaysFromMarch(a);
      DaysFromMarch(b);
      MonthLengths(a.year, if a.month == 2 then 1 else a.month);
    }
  }

  /** Day number `doy` of the year that begins on March 1 of `y`. */
  function MarchDate(y: int, doy: nat): Date
    requires doy <= 365
  {
    MonthOfYear(doy);
    var mp := (5 * doy + 2) / 153;
    var m := if mp < 10 then mp + 3 else mp - 9;
    Date(if m <= 2 then y + 1 else y, m, doy - MonthStart(mp) + 1)
  }

  lemma MarchDateIsValid(y: int, doy: nat)
    requires doy < 365 + (if LeapYear(y + 1) then 1 else 0)
    ensures Valid(MarchDate(y, doy))
  {
    MonthOfYear(doy);
    var m := MarchDate(y, doy).month;
    if m != 2 {
      MonthLengths(y, m);
    }
  }

  lemma MarchDateNumber(y: int, doy: nat)
    requires doy <= 365
    ensures DaysFromCivil(MarchDate(y, doy)) == YearStart(y) + doy - 719468
  {
    hide DaysFromCivil, YearStart;
    MonthOfYear(doy);
    DaysFromMarch(MarchDate(y, doy));
  }

  lemma SameRemainder(n: nat, k: int, a: int)
    requires n > 0
    ensures (n * k + a) % n == a % n
  {
    assert n * (k + a / n) == n * k + n * (a / n);
    Quotient(n * k + a, n, k + a / n);
  }

  lemma LeapYearOfEra(era: int, yoe: nat)
    ensures LeapYear(400 * era + yoe) == LeapYear(yoe)
  {
    SameRemainder(4, 100 * era, yoe);
    SameRemainder(100, 4 * era, yoe);
    SameRemainder(400, era, yoe);
  }

  lemma CivilIsMarchDate(days: int, era: int, doe: nat, doy: nat)
    requires days + 719468 == era * 146097 + doe && doe < 146097 && doy <= 365
    requires doy == doe - (365 * EraYear(doe) + EraYear(doe) / 4 - EraYear(doe) / 100)
    ensures CivilFromDays(days) == MarchDate(EraYear(doe) + era * 400, doy)
  {
    hide EraYear, TruncatedDiv;
    EraIsFloor(days + 719468, 146097);
    Quotient(days + 719468, 146097, era);
  }

  /** Every day number is the number of the valid date computed from it. */
  lemma DaysRoundTrip(days: int)
    ensures Valid(CivilFromDays(days)) && DaysFromCivil(CivilFromDays(days)) == days
  {
    hide DaysFromCivil, YearStart, LeapYear, EraYear, Valid, CivilFromDays, MarchDate;
    var z := days + 719468;
    var era, doe := z / 146097, z % 146097;
    YearOfEra(doe);
    var yoe := EraYear(doe);
    var doy := doe - (365 * yoe + yoe / 4 - yoe / 100);
    CivilIsMarchDate(days, era, doe, doy);
    LeapYearOfEra(era, yoe + 1);
    EraSplitsYear(era, yoe);
    MarchDateIsValid(yoe + era * 400, doy);
    MarchDateNumber(yoe + era * 400, doy);
  }

  /** Every valid date is computed back from its day number. */
  lemma DateRoundTrip(date: Date)
    requires Valid(date)
    ensures CivilFromDays(DaysFromCivil(date)) == date
  {
    var back := CivilFromDays(DaysFromCivil(date));
    DaysRoundTrip(DaysFromCivil(date));
    PreservesOrder(back, date);
    PreservesOrder(date, back);
  }
}
