/** Split ranges over dates and timestamps, on the day count of `Civil`. */
module TemporalRanges {
  import opened Arithmetic
  import opened Civil
  import opened SplitPlanner

  // Every point of an interval lies in exactly one of its ranges.

  predicate Holds(r: Range, x: int) {
    r.start <= x < r.end
  }

  lemma {:induction false} StartsAscend(ranges: seq<Range>, i: nat, j: nat)
    requires Contiguous(ranges) && i < j < |ranges|
    ensures ranges[i].end <= ranges[j].start
  {
    if i < j - 1 {
      StartsAscend(ranges, i, j - 1);
    }
  }

  lemma {:induction false} SomeRangeHolds(ranges: seq<Range>, x: int) returns (i: nat)
    requires Contiguous(ranges) && ranges != [] && ranges[0].start <= x < ranges[|ranges| - 1].end
    ensures i < |ranges| && Holds(ranges[i], x)
  {
    i := |ranges| - 1;
    if x < ranges[i].start {
      i := SomeRangeHolds(ranges[..i], x);
    }
  }

  /** The last point that the ranges of [lo, hi] hold; an empty interval is treated as [lo, lo]. */
  function Top(lo: int, hi: int): int {
    if hi < lo then lo else hi
  }

  /** `x` is in the interval exactly if some range holds it, and no two ranges do. */
  lemma RangesPartition(lo: int, hi: int, n: int, x: int)
    ensures lo <= x <= Top(lo, hi) <==> exists i :: 0 <= i < |KeyRanges(lo, hi, n)| && Holds(KeyRanges(lo, hi, n)[i], x)
    ensures forall i, j | 0 <= i < j < |KeyRanges(lo, hi, n)| :: !(Holds(KeyRanges(lo, hi, n)[i], x) && Holds(KeyRanges(lo, hi, n)[j], x))
  {
    hide KeyRanges;
    var ranges := KeyRanges(lo, hi, n);
    RangesCover(lo, hi, n);
    forall i, j | 0 <= i < j < |ranges|
      ensures ranges[i].end <= ranges[j].start
    {
      StartsAscend(ranges, i, j);
    }
    if lo <= x <= Top(lo, hi) {
      var i := SomeRangeHolds(ranges, x);
    }
  }

  // Dates.

  datatype DateRange = DateRange(start: Date, end: Date)

  const ORDINAL_OF_EPOCH := 719163

  function Ordinal(date: Date): int
    requires 1 <= date.month <= 12
  {
    DaysFromCivil(date) + ORDINAL_OF_EPOCH
  }

  function FromOrdinal(ordinal: int): Date {
    CivilFromDays(ordinal - ORDINAL_OF_EPOCH)
  }

  method DateRanges(lo: Date, hi: Date, n: int) returns (out: seq<DateRange>)
    requires Valid(lo) && Valid(hi)
    ensures |out| == |KeyRanges(Ordinal(lo), Ordinal(hi), n)|
    ensures forall i | 0 <= i < |out| ::
              var r := KeyRanges(Ordinal(lo), Ordinal(hi), n)[i];
              out[i] == DateRange(FromOrdinal(r.start), FromOrdinal(r.end))
  {
    hide CivilFromDays, DaysFromCivil, KeyRanges;
    var ranges := ComputeKeyRanges(Ordinal(lo), Ordinal(hi), n);
    out := [];
    var i := 0;
    while i < |ranges|
      invariant 0 <= i <= |ranges| && |out| == i
      invariant forall k | 0 <= k < i :: out[k] == DateRange(FromOrdinal(ranges[k].start), FromOrdinal(ranges[k].end))
    {
      out := out + [DateRange(FromOrdinal(ranges[i].start), FromOrdinal(ranges[i].end))];
      i := i + 1;
    }
  }

  /** A date is in a range of dates exactly when its ordinal is in the range of ordinals. */
  lemma DateHeldIff(r: Range, date: Date)
    requires Valid(date)
    ensures Valid(FromOrdinal(r.start)) && Valid(FromOrdinal(r.end))
    ensures !Before(date, FromOrdinal(r.start)) && Before(date, FromOrdinal(r.end)) <==> Holds(r, Ordinal(date))
  {
    hide CivilFromDays, DaysFromCivil, Before;
    DaysRoundTrip(r.start - ORDINAL_OF_EPOCH);
    DaysRoundTrip(r.end - ORDINAL_OF_EPOCH);
    PreservesOrder(date, FromOrdinal(r.start));
    PreservesOrder(date, FromOrdinal(r.end));
  }

  /** The date ranges cover every date from `lo` to `hi`, and no other; just `lo` if `hi` is before it. */
  lemma DatesPartition(lo: Date, hi: Date, n: int, date: Date)
    requires Valid(lo) && Valid(hi) && Valid(date)
    ensures !Before(date, lo) && !Before(if Before(hi, lo) then lo else hi, date) <==>
            exists i :: && 0 <= i < |KeyRanges(Ordinal(lo), Ordinal(hi), n)|
                        && !Before(date, FromOrdinal(KeyRanges(Ordinal(lo), Ordinal(hi), n)[i].start))
                        && Before(date, FromOrdinal(KeyRanges(Ordinal(lo), Ordinal(hi), n)[i].end))
  {
    hide CivilFromDays, DaysFromCivil, Before, KeyRanges, FromOrdinal;
    PreservesOrder(hi, lo);
    PreservesOrder(date, lo);
    PreservesOrder(lo, date);
    PreservesOrder(hi, date);
    var ranges := KeyRanges(Ordinal(lo), Ordinal(hi), n);
    RangesPartition(Ordinal(lo), Ordinal(hi), n, Ordinal(date));
    forall i | 0 <= i < |ranges|
      ensures !Before(date, FromOrdinal(ranges[i].start)) && Before(date, FromOrdinal(ranges[i].end)) <==> Holds(ranges[i], Ordinal(date))
    {
      DateHeldIff(ranges[i], date);
    }
  }

  // Timestamps in microseconds.

  datatype Moment = Moment(date: Date, hour: int, minute: int, second: int, micros: int)

  predicate ValidMoment(m: Moment) {
    Valid(m.date) && 0 <= m.hour < 24 && 0 <= m.minute < 60 && 0 <= m.second < 60 && 0 <= m.micros < 1000000
  }

  /** The remainder that goes with `TruncatedDiv`: it has the sign of the dividend. */
  function TruncatedMod(a: int, b: nat): int
    requires b > 0
  {
    a - TruncatedDiv(a, b) * b
  }

  /** A truncating quotient and remainder, corrected so that the remainder is not negative. */
  function FloorPair(a: int, b: nat): (int, int)
    requires b > 0
  {
    var q, r := TruncatedDiv(a, b), TruncatedMod(a, b);
    if r < 0 then (q - 1, r + b) else (q, r)
  }

  function MomentOf(micros: int): Moment {
    var (sec, frac) := FloorPair(micros, 1000000);
    var (days, rem) := FloorPair(sec, 86400);
    Moment(CivilFromDays(days), rem / 3600, rem % 3600 / 60, rem % 60, frac)
  }

  function MicrosOf(m: Moment, offsetSeconds: int): int
    requires 1 <= m.date.month <= 12
  {
    (DaysFromCivil(m.date) * 86400 + m.hour * 3600 + m.minute * 60 + m.second - offsetSeconds) * 1000000 + m.micros
  }

  /** A timestamp written east of Greenwich is that much earlier. */
  lemma OffsetIsSubtracted(m: Moment, offsetSeconds: int)
    requires ValidMoment(m)
    ensures MicrosOf(m, offsetSeconds) == MicrosOf(m, 0) - 1000000 * offsetSeconds
  {
  }

  lemma FloorPairIsFloor(a: int, b: nat)
    requires b > 0
    ensures FloorPair(a, b) == (a / b, a % b)
  {
    var t := TruncatedDiv(a, b);
    var n := if a >= 0 then a else -a;
    assert n == b * (n / b) + n % b;
    assert t * b == if a >= 0 then b * (n / b) else -(b * (n / b));
    assert b * (t - 1) == t * b - b;
    Quotient(a, b, if a - t * b < 0 then t - 1 else t);
    assert a == b * (a / b) + a % b;
  }

  /** Every instant, also before 1970, is read back from the timestamp printed for it. */
  lemma MicrosRoundTrip(micros: int)
    ensures ValidMoment(MomentOf(micros)) && MicrosOf(MomentOf(micros), 0) == micros
  {
    hide CivilFromDays, DaysFromCivil, FloorPair;
    FloorPairIsFloor(micros, 1000000);
    FloorPairIsFloor(micros / 1000000, 86400);
    DaysRoundTrip(micros / 1000000 / 86400);
  }

  lemma MomentRoundTrip(m: Moment)
    requires ValidMoment(m)
    ensures MomentOf(MicrosOf(m, 0)) == m
  {
    hide CivilFromDays, DaysFromCivil, FloorPair;
    var days := DaysFromCivil(m.date);
    var rem := m.hour * 3600 + m.minute * 60 + m.second;
    var sec := days * 86400 + rem;
    Quotient(MicrosOf(m, 0), 1000000, sec);
    Quotient(sec, 86400, days);
    Quotient(rem, 3600, m.hour);
    Quotient(rem - m.hour * 3600, 60, m.minute);
    Quotient(rem, 60, m.hour * 60 + m.minute);
    FloorPairIsFloor(MicrosOf(m, 0), 1000000);
    FloorPairIsFloor(sec, 86400);
    DateRoundTrip(m.date);
  }

  /** Order of timestamps, by date and then by time of day. */
  predicate Sooner(a: Moment, b: Moment) {
    || Before(a.date, b.date)
    || (a.date == b.date && SecondOfDay(a) < SecondOfDay(b))
    || (a.date == b.date && SecondOfDay(a) == SecondOfDay(b) && a.micros < b.micros)
  }

  function SecondOfDay(m: Moment): int {
    m.hour * 3600 + m.minute * 60 + m.second
  }

  lemma MicrosKeepOrder(a: Moment, b: Moment)
    requires ValidMoment(a) && ValidMoment(b)
    ensures Sooner(a, b) <==> MicrosOf(a, 0) < MicrosOf(b, 0)
  {
    hide DaysFromCivil, Before;
    PreservesOrder(a.date, b.date);
    PreservesOrder(b.date, a.date);
    BeforeIsTotal(a.date, b.date);
  }

  lemma BeforeIsTotal(a: Date, b: Date)
    ensures Before(a, b) || a == b || Before(b, a)
  {
  }

  datatype MomentRange = MomentRange(start: Moment, end: Moment)

  method MomentRanges(lo: Moment, hi: Moment, n: int) returns (out: seq<MomentRange>)
    requires ValidMoment(lo) && ValidMoment(hi)
    ensures |out| == |KeyRanges(MicrosOf(lo, 0), MicrosOf(hi, 0), n)|
    ensures forall i | 0 <= i < |out| ::
              var r := KeyRanges(MicrosOf(lo, 0), MicrosOf(hi, 0), n)[i];
              out[i] == MomentRange(MomentOf(r.start), MomentOf(r.end))
  {
    hide MomentOf, MicrosOf, KeyRanges;
    var ranges := ComputeKeyRanges(MicrosOf(lo, 0), MicrosOf(hi, 0), n);
    out := [];
    var i := 0;
    while i < |ranges|
      invariant 0 <= i <= |ranges| && |out| == i
      invariant forall k | 0 <= k < i :: out[k] == MomentRange(MomentOf(ranges[k].start), MomentOf(ranges[k].end))
    {
      out := out + [MomentRange(MomentOf(ranges[i].start), MomentOf(ranges[i].end))];
      i := i + 1;
    }
  }

  lemma MomentHeldIff(r: Range, m: Moment)
    requires ValidMoment(m)
    ensures ValidMoment(MomentOf(r.start)) && ValidMoment(MomentOf(r.end))
    ensures !Sooner(m, MomentOf(r.start)) && Sooner(m, MomentOf(r.end)) <==> Holds(r, MicrosOf(m, 0))
  {
    hide MomentOf, MicrosOf, Sooner;
    MicrosRoundTrip(r.start);
    MicrosRoundTrip(r.end);
    MicrosKeepOrder(m, MomentOf(r.start));
    MicrosKeepOrder(m, MomentOf(r.end));
  }

  /** The timestamp ranges cover every timestamp from `lo` to `hi`, and no other; just `lo` if `hi` is sooner. */
  lemma MomentsPartition(lo: Moment, hi: Moment, n: int, m: Moment)
    requires ValidMoment(lo) && ValidMoment(hi) && ValidMoment(m)
    ensures !Sooner(m, lo) && !Sooner(if Sooner(hi, lo) then lo else hi, m) <==>
            exists i :: && 0 <= i < |KeyRanges(MicrosOf(lo, 0), MicrosOf(hi, 0), n)|
                        && !Sooner(m, MomentOf(KeyRanges(MicrosOf(lo, 0), MicrosOf(hi, 0), n)[i].start))
                        && Sooner(m, MomentOf(KeyRanges(MicrosOf(lo, 0), MicrosOf(hi, 0), n)[i].end))
  {
    hide MomentOf, MicrosOf, Sooner, KeyRanges;
    MicrosKeepOrder(hi, lo);
    MicrosKeepOrder(m, lo);
    MicrosKeepOrder(lo, m);
    MicrosKeepOrder(hi, m);
    var ranges := KeyRanges(MicrosOf(lo, 0), MicrosOf(hi, 0), n);
    RangesPartition(MicrosOf(lo, 0), MicrosOf(hi, 0), n, MicrosOf(m, 0));
    forall i | 0 <= i < |ranges|
      ensures !Sooner(m, MomentOf(ranges[i].start)) && Sooner(m, MomentOf(ranges[i].end)) <==> Holds(ranges[i], MicrosOf(m, 0))
    {
      MomentHeldIff(ranges[i], m);
    }
  }
}
