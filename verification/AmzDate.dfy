/** The `x-amz-date` parser of the request signature check, against the day count of `Civil`. */
module AmzDate {
  import opened Wrappers
  import opened ByteStrings
  import opened Numerals
  import opened Civil

  /** YYYYMMDD'T'HHMMSS'Z'. */
  predicate Shaped(date: Str) {
    && |date| == 16 && date[8] == 84 && date[15] == 90
    && forall i | 0 <= i < 16 && i != 8 && i != 15 :: IsDigit(date[i])
  }

  datatype Stamp = Stamp(date: Date, hour: nat, minute: nat, second: nat)

  function StampOf(date: Str): Stamp
    requires Shaped(date)
  {
    Stamp(Date(Number(date[0..4]), Number(date[4..6]), Number(date[6..8])),
          Number(date[9..11]), Number(date[11..13]), Number(date[13..15]))
  }

  predicate ValidStamp(s: Stamp) {
    s.date.year != 0 && Valid(s.date) && s.hour <= 23 && s.minute <= 59 && s.second <= 59
  }

  predicate Accepted(date: Str) {
    Shaped(date) && ValidStamp(StampOf(date))
  }

  /** Seconds since the epoch, on the day count of `days_from_civil`. */
  function Seconds(s: Stamp): int
    requires ValidStamp(s)
  {
    DaysFromCivil(s.date) * 86400 + s.hour * 3600 + s.minute * 60 + s.second
  }

  const MONTH_DAYS := [31, 28, 31, 30, 31, 30, 31, 31, 30, 31, 30, 31]

  method ReadNumber(date: Str, begin: nat, count: nat) returns (result: nat)
    requires begin + count <= |date| && Digits(date[begin..begin + count])
    ensures result == Number(date[begin..begin + count])
  {
    result := 0;
    var i := begin;
    while i < begin + count
      invariant begin <= i <= begin + count
      invariant forall k | 0 <= k < i - begin :: date[begin..i][k] == date[begin..begin + count][k]
      invariant Digits(date[begin..i]) && result == Number(date[begin..i])
    {
      assert date[i] == date[begin..begin + count][i - begin];
      assert date[begin..i + 1][..i - begin] == date[begin..i];
      result := result * 10 + (date[i] - 48);
      i := i + 1;
    }
  }

  method CheckShape(date: Str) returns (ok: bool)
    ensures ok == Shaped(date)
  {
    if |date| != 16 || date[8] != 84 || date[15] != 90 {
      return false;
    }
    var i := 0;
    while i < |date|
      invariant 0 <= i <= 16
      invariant forall k | 0 <= k < i && k != 8 && k != 15 :: IsDigit(date[k])
    {
      if i != 8 && i != 15 && (date[i] < 48 || date[i] > 57) {
        return false;
      }
      i := i + 1;
    }
    return true;
  }

  method CountDays(date: Date) returns (days: int)
    requires Valid(date) && date.year > 0
    ensures days == DaysFromCivil(date)
  {
    hide DaysFromCivil;
    var priorYear := date.year - 1;
    days := 365 * priorYear + priorYear / 4 - priorYear / 100 + priorYear / 400 - 719162;
    FirstOfYear(date.year);
    var m := 1;
    while m < date.month
      invariant 1 <= m <= date.month
      invariant days + (if m > 2 && LeapYear(date.year) then 1 else 0) == DaysFromCivil(Date(date.year, m, 1))
    {
      FirstOfNextMonth(date.year, m);
      days := days + MONTH_DAYS[m - 1];
      m := m + 1;
    }
    if date.month > 2 && LeapYear(date.year) {
      days := days + 1;
    }
    days := days + date.day - 1;
    DaysFromMarch(date);
    DaysFromMarch(date.(day := 1));
  }

  /** Accepts exactly the valid UTC times of years 1 to 9999 and numbers them by the proleptic Gregorian calendar. */
  method ParseDate(date: Str) returns (r: Option<int>)
    ensures r == if Accepted(date) then Some(Seconds(StampOf(date))) else None
  {
    hide Number, DaysFromCivil;
    var shaped := CheckShape(date);
    if !shaped {
      return None;
    }
    var year := ReadNumber(date, 0, 4);
    var month := ReadNumber(date, 4, 2);
    var day := ReadNumber(date, 6, 2);
    var hour := ReadNumber(date, 9, 2);
    var minute := ReadNumber(date, 11, 2);
    var second := ReadNumber(date, 13, 2);
    if year == 0 || month < 1 || month > 12 || day < 1 {
      return None;
    }
    if day > MONTH_DAYS[month - 1] + (if month == 2 && LeapYear(year) then 1 else 0)
       || hour > 23 || minute > 59 || second > 59 {
      return None;
    }
    var days := CountDays(Date(year, month, day));
    return Some(days * 86400 + hour * 3600 + minute * 60 + second);
  }

  // Accepted strings sort as the times they denote.

  lemma {:induction false} LessSplit(a: Str, b: Str, k: nat)
    requires k <= |a| && k <= |b|
    ensures Less(a, b) <==> Less(a[..k], b[..k]) || (a[..k] == b[..k] && Less(a[k..], b[k..]))
  {
    if k > 0 {
      LessSplit(a[1..], b[1..], k - 1);
      assert a[..k] == [a[0]] + a[1..][..k - 1] && b[..k] == [b[0]] + b[1..][..k - 1];
      assert a[1..][k - 1..] == a[k..] && b[1..][k - 1..] == b[k..];
      assert a[..k][1..] == a[1..][..k - 1] && b[..k][1..] == b[1..][..k - 1];
      if a[..k] == b[..k] {
        assert a[..k][0] == b[..k][0];
      }
    } else {
      assert a[k..] == a && b[k..] == b;
    }
  }

  lemma {:induction false} NumberKeepsOrder(a: Str, b: Str)
    requires |a| == |b| && Digits(a) && Digits(b)
    ensures Less(a, b) <==> Number(a) < Number(b)
    ensures a == b <==> Number(a) == Number(b)
    decreases |a|
  {
    if a != [] {
      var k := |a| - 1;
      NumberKeepsOrder(a[..k], b[..k]);
      LessSplit(a, b, k);
      assert a == a[..k] + [a[k]] && b == b[..k] + [b[k]];
      assert a[k..] == [a[k]] && b[k..] == [b[k]];
    }
  }

  predicate Earlier(a: Stamp, b: Stamp) {
    || Before(a.date, b.date)
    || (a.date == b.date &&
        (|| a.hour < b.hour
         || (a.hour == b.hour && a.minute < b.minute)
         || (a.hour == b.hour && a.minute == b.minute && a.second < b.second)))
  }

  lemma EarlierIsLess(a: Stamp, b: Stamp)
    requires ValidStamp(a) && ValidStamp(b)
    ensures Earlier(a, b) <==> Seconds(a) < Seconds(b)
  {
    hide DaysFromCivil;
    PreservesOrder(a.date, b.date);
    PreservesOrder(b.date, a.date);
  }

  lemma DatesSortAsTimes(a: Str, b: Str)
    requires Accepted(a) && Accepted(b)
    ensures Less(a, b) <==> Seconds(StampOf(a)) < Seconds(StampOf(b))
  {
    hide Less, Number;
    LessByFields(a, b);
    EarlierIsLess(StampOf(a), StampOf(b));
  }

  lemma FieldOrder(a: Str, b: Str, begin: nat, end: nat)
    requires Shaped(a) && Shaped(b) && begin < end <= 16
    requires Digits(a[begin..end]) && Digits(b[begin..end])
    ensures Less(a[begin..], b[begin..]) <==>
            || Number(a[begin..end]) < Number(b[begin..end])
            || (Number(a[begin..end]) == Number(b[begin..end]) && Less(a[end..], b[end..]))
  {
    hide Less, Number;
    LessSplit(a[begin..], b[begin..], end - begin);
    assert a[begin..][..end - begin] == a[begin..end] && b[begin..][..end - begin] == b[begin..end];
    assert a[begin..][end - begin..] == a[end..] && b[begin..][end - begin..] == b[end..];
    NumberKeepsOrder(a[begin..end], b[begin..end]);
  }

  lemma LessByDate(a: Str, b: Str)
    requires Shaped(a) && Shaped(b)
    ensures var x, y := StampOf(a).date, StampOf(b).date;
            Less(a, b) <==> Before(x, y) || (x == y && Less(a[8..], b[8..]))
  {
    hide Less, Number;
    assert a[0..] == a && b[0..] == b;
    FieldOrder(a, b, 0, 4);
    FieldOrder(a, b, 4, 6);
    FieldOrder(a, b, 6, 8);
  }

  lemma LessByTime(a: Str, b: Str)
    requires Shaped(a) && Shaped(b)
    ensures Less(a[9..], b[9..]) <==> Earlier(StampOf(a).(date := StampOf(b).date), StampOf(b))
  {
    assert !Less(a[15..], b[15..]) by {
      assert a[15..] == [90] && b[15..] == [90];
    }
    hide Less, Number;
    FieldOrder(a, b, 9, 11);
    FieldOrder(a, b, 11, 13);
    FieldOrder(a, b, 13, 15);
  }

  lemma LessByFields(a: Str, b: Str)
    requires Shaped(a) && Shaped(b)
    ensures Less(a, b) <==> Earlier(StampOf(a), StampOf(b))
  {
    hide Number;
    LessByDate(a, b);
    LessByTime(a, b);
    assert a[8..][1..] == a[9..] && b[8..][1..] == b[9..];
  }

  // The times as printed.

  function TwoDigits(n: nat): Str
    requires n < 100
  {
    [48 + n / 10, 48 + n % 10]
  }

  /** YYYYMMDD'T'HHMMSS'Z' of a time in years 1 to 9999. */
  function Printed(s: Stamp): Str
    requires InCalendar(s)
  {
    TwoDigits(s.date.year / 100) + TwoDigits(s.date.year % 100) + TwoDigits(s.date.month) + TwoDigits(s.date.day)
    + ['T' as int] + TwoDigits(s.hour) + TwoDigits(s.minute) + TwoDigits(s.second) + ['Z' as int]
  }

  ghost predicate InCalendar(s: Stamp) {
    1 <= s.date.year <= 9999 && Valid(s.date) && s.hour < 24 && s.minute < 60 && s.second < 60
  }

  lemma TwoDigitsRead(n: nat)
    requires n < 100
    ensures Digits(TwoDigits(n)) && Number(TwoDigits(n)) == n
  {
    var d := TwoDigits(n);
    assert d[..1] == [d[0]] && d[..1][..0] == [];
    assert Number([]) == 0;
  }

  lemma FourDigitsRead(s: Str)
    requires |s| == 4 && Digits(s)
    ensures Number(s) == Number(s[..2]) * 100 + Number(s[2..])
  {
    assert s[..3][..2] == s[..2] && s[2..][..1] == [s[2]] && s[2..][..1][..0] == [];
    assert Number(s) == Number(s[..3]) * 10 + (s[3] - 48);
    assert Number(s[..3]) == Number(s[..2]) * 10 + (s[2] - 48);
    assert Number(s[2..]) == Number(s[2..][..1]) * 10 + (s[3] - 48);
    assert Number([]) == 0;
  }

  lemma TwoDigitsOf(s: Str)
    requires |s| == 2 && Digits(s)
    ensures Number(s) < 100 && TwoDigits(Number(s)) == s
  {
    assert s[..1] == [s[0]] && s[..1][..0] == [];
    assert Number([]) == 0;
  }

  /** Every time of the calendar is accepted as printed, and read back. */
  lemma PrintedIsAccepted(s: Stamp)
    requires InCalendar(s)
    ensures Accepted(Printed(s)) && StampOf(Printed(s)) == s
  {
    hide Number;
    var p := Printed(s);
    var year := p[0..4];
    assert year[..2] == TwoDigits(s.date.year / 100) && year[2..] == TwoDigits(s.date.year % 100);
    assert p[4..6] == TwoDigits(s.date.month) && p[6..8] == TwoDigits(s.date.day);
    assert p[9..11] == TwoDigits(s.hour) && p[11..13] == TwoDigits(s.minute) && p[13..15] == TwoDigits(s.second);
    TwoDigitsRead(s.date.year / 100);
    TwoDigitsRead(s.date.year % 100);
    TwoDigitsRead(s.date.month);
    TwoDigitsRead(s.date.day);
    TwoDigitsRead(s.hour);
    TwoDigitsRead(s.minute);
    TwoDigitsRead(s.second);
    FourDigitsRead(year);
  }

  /** Nothing else is accepted: an accepted string is the printed form of the time it denotes. */
  lemma AcceptedIsPrinted(date: Str)
    requires Accepted(date)
    ensures InCalendar(StampOf(date)) && Printed(StampOf(date)) == date
  {
    hide Number, TwoDigits, DaysInMonth;
    var s := StampOf(date);
    var year := date[0..4];
    assert year[..2] == date[0..2] && year[2..] == date[2..4];
    FourDigitsRead(year);
    TwoDigitsOf(date[0..2]);
    TwoDigitsOf(date[2..4]);
    TwoDigitsOf(date[4..6]);
    TwoDigitsOf(date[6..8]);
    TwoDigitsOf(date[9..11]);
    TwoDigitsOf(date[11..13]);
    TwoDigitsOf(date[13..15]);
    InFields(date);
  }

  lemma InFields(date: Str)
    requires |date| == 16
    ensures date == date[0..2] + date[2..4] + date[4..6] + date[6..8] + [date[8]]
                    + date[9..11] + date[11..13] + date[13..15] + [date[15]]
  {
  }

  /** The time one second later. */
  function NextSecond(s: Stamp): Stamp
    requires ValidStamp(s)
  {
    if s.second < 59 then s.(second := s.second + 1)
    else if s.minute < 59 then s.(minute := s.minute + 1, second := 0)
    else if s.hour < 23 then s.(hour := s.hour + 1, minute := 0, second := 0)
    else Stamp(Tomorrow(s.date), 0, 0, 0)
  }

  /** The seconds grow by one from each time to the next, from 0 at the start of 1970. */
  lemma SecondsCount(s: Stamp)
    requires ValidStamp(s) && s.date.year > 0
    ensures IsNext(s, NextSecond(s))
    ensures s == Stamp(Date(1970, 1, 1), 0, 0, 0) ==> Seconds(s) == 0
  {
    hide DaysFromCivil, Tomorrow, Valid;
    CountsDays(s.date);
    LaterYear(s.date);
  }

  ghost predicate IsNext(s: Stamp, next: Stamp)
    requires ValidStamp(s)
  {
    ValidStamp(next) && Seconds(next) == Seconds(s) + 1
  }

  lemma LaterYear(date: Date)
    requires Valid(date)
    ensures Tomorrow(date).year >= date.year
  {
  }
}
