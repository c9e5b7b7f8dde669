/** Key ranges of a split table, and the versions published from them. */
module SplitPlanner {
  import opened Arithmetic
  import opened Sequences

  datatype Range = Range(start: int, end: int)

  /** The inclusive interval [lo, hi] as `n` contiguous half-open ranges; at least one range. */
  function KeyRanges(lo: int, hi: int, n: int): (r: seq<Range>)
    ensures |r| == if n < 1 then 1 else n
  {
    var m := if n < 1 then 1 else n;
    if hi < lo then seq(m, i => if i == 0 then Range(lo, lo + 1) else Range(lo + 1, lo + 1))
    else seq(m, i requires 0 <= i < m => Range(Bound(lo, hi - lo + 1, i, m), Bound(lo, hi - lo + 1, i + 1, m)))
  }

  function Bound(lo: int, span: nat, i: nat, n: nat): int
    requires n > 0
  {
    lo + span * i / n
  }

  method ComputeKeyRanges(lo: int, hi: int, count: int) returns (out: seq<Range>)
    ensures out == KeyRanges(lo, hi, count)
  {
    hide Bound;
    var n := if count < 1 then 1 else count;
    out := [];
    if hi < lo {
      out := out + [Range(lo, lo + 1)];
      var i := 1;
      while i < n
        invariant 1 <= i <= n
        invariant out == KeyRanges(lo, hi, count)[..i]
      {
        out := out + [Range(lo + 1, lo + 1)];
        i := i + 1;
      }
      return;
    }
    var span := hi - lo + 1;
    var bounds := new int[n + 1];
    var i := 0;
    while i <= n
      invariant 0 <= i <= n + 1
      invariant forall k | 0 <= k < i :: bounds[k] == Bound(lo, span, k, n)
    {
      bounds[i] := Bound(lo, span, i, n);
      i := i + 1;
    }
    Ends(lo, span, n);
    bounds[0] := lo;
    bounds[n] := hi + 1;
    i := 0;
    while i < n
      invariant 0 <= i <= n
      invariant out == KeyRanges(lo, hi, count)[..i]
    {
      out := out + [Range(bounds[i], bounds[i + 1])];
      i := i + 1;
    }
  }

  lemma Ends(lo: int, span: nat, n: nat)
    requires n > 0
    ensures Bound(lo, span, 0, n) == lo && Bound(lo, span, n, n) == lo + span
  {
    assert span * n / n == span by {
      Quotient(span * n, n, span);
    }
  }

  function Width(r: Range): int {
    r.end - r.start
  }

  /** No two ranges differ in width by more than one. */
  lemma WidthsDifferByOne(lo: int, hi: int, n: int, i: nat, j: nat)
    requires i < |KeyRanges(lo, hi, n)| && j < |KeyRanges(lo, hi, n)|
    ensures 0 <= Width(KeyRanges(lo, hi, n)[i]) <= Width(KeyRanges(lo, hi, n)[j]) + 1
  {
    hide Bound;
    if lo <= hi {
      var m := if n < 1 then 1 else n;
      BoundStep(lo, hi - lo + 1, i, m);
      BoundStep(lo, hi - lo + 1, j, m);
    }
  }

  lemma BoundStep(lo: int, span: nat, i: nat, n: nat)
    requires n > 0
    ensures span / n <= Bound(lo, span, i + 1, n) - Bound(lo, span, i, n) <= span / n + 1
  {
    var q, r := span / n, span % n;
    var a, b := span * i, span * (i + 1);
    assert b == a + span && span == n * q + r;
    var x := a / n;
    assert a == n * x + a % n;
    if a % n + r < n {
      assert n * (x + q) == n * x + n * q;
      Quotient(b, n, x + q);
    } else {
      assert n * (x + q + 1) == n * x + n * q + n;
      Quotient(b, n, x + q + 1);
    }
  }

  /** If the product of span and count fits in 64 bits, so does every intermediate value. */
  lemma IntermediatesFit(lo: int, hi: int, n: nat, i: nat)
    requires n > 0 && i <= n && lo <= hi && INT64_MIN <= lo && hi < INT64_MAX
    requires (hi - lo + 1) * n <= INT64_MAX
    ensures 0 <= (hi - lo + 1) * i <= INT64_MAX
    ensures lo <= Bound(lo, hi - lo + 1, i, n) <= hi + 1
  {
    var span := hi - lo + 1;
    assert span * n == span * i + span * (n - i);
    BoundBetween(lo, span, i, n);
  }

  lemma BoundBetween(lo: int, span: nat, i: nat, n: nat)
    requires n > 0 && i <= n
    ensures lo <= Bound(lo, span, i, n) <= lo + span
  {
    MulMonotone(span, i, n);
    QuotientMonotone(span * i, span * n, n);
    Ends(lo, span, n);
  }

  // Reading ranges of a table with unique integer keys.

  datatype Row = Row(key: int, data: string)

  ghost predicate KeyOrder(rows: seq<Row>) {
    forall i, j | 0 <= i < j < |rows| :: rows[i].key < rows[j].key
  }

  /** The rows with `lo <= key < hi`, in key order. */
  function Between(rows: seq<Row>, lo: int, hi: int): seq<Row> {
    if rows == [] then []
    else
      var last := rows[|rows| - 1];
      Between(rows[..|rows| - 1], lo, hi) + (if lo <= last.key < hi then [last] else [])
  }

  /** The range query: the rows of the range in key order, at most `limit` of them. */
  function Select(rows: seq<Row>, lo: int, hi: int, limit: nat): seq<Row> {
    var found := Between(rows, lo, hi);
    if |found| <= limit then found else found[..limit]
  }

  lemma {:induction false} BetweenNothing(rows: seq<Row>, lo: int, hi: int)
    requires forall r | r in rows :: r.key < lo || hi <= r.key
    ensures Between(rows, lo, hi) == []
  {
    if rows != [] {
      BetweenNothing(rows[..|rows| - 1], lo, hi);
    }
  }

  lemma {:induction false} BetweenEverything(rows: seq<Row>, lo: int, hi: int)
    requires forall r | r in rows :: lo <= r.key < hi
    ensures Between(rows, lo, hi) == rows
  {
    if rows != [] {
      BetweenEverything(rows[..|rows| - 1], lo, hi);
      assert rows == rows[..|rows| - 1] + [rows[|rows| - 1]];
    }
  }

  lemma BetweenStep(rows: seq<Row>, lo: int, hi: int)
    requires rows != []
    ensures var before, last := rows[..|rows| - 1], rows[|rows| - 1];
            Between(rows, lo, hi) == if lo <= last.key < hi then Between(before, lo, hi) + [last] else Between(before, lo, hi)
  {
  }

  lemma {:induction false} BetweenSplits(rows: seq<Row>, lo: int, mid: int, hi: int)
    requires KeyOrder(rows) && lo <= mid <= hi
    ensures Between(rows, lo, hi) == Between(rows, lo, mid) + Between(rows, mid, hi)
  {
    if rows != [] {
      hide Between;
      var before, last := rows[..|rows| - 1], rows[|rows| - 1];
      BetweenSplits(before, lo, mid, hi);
      BetweenStep(rows, lo, mid);
      BetweenStep(rows, mid, hi);
      BetweenStep(rows, lo, hi);
      if last.key < mid {
        BetweenNothing(before, mid, hi);
      } else if last.key < hi {
        AppendAssociative(Between(before, lo, mid), Between(before, mid, hi), [last]);
      }
    }
  }

  /** Unique integer keys leave at most one row for each key of the range. */
  lemma {:induction false} BetweenIsShort(rows: seq<Row>, lo: int, hi: int)
    requires KeyOrder(rows)
    ensures |Between(rows, lo, hi)| <= if lo < hi then hi - lo else 0
  {
    if rows != [] {
      var before, last := rows[..|rows| - 1], rows[|rows| - 1];
      BetweenIsShort(before, lo, hi);
      if lo <= last.key < hi {
        BetweenIsShort(before, lo, last.key);
        BetweenSplits(before, lo, last.key, hi);
        BetweenNothing(before, last.key, hi);
      }
    }
  }

  // Publishing: version k reveals a growing prefix of the key range.

  /** Inclusive key bounds; (0, -1) for an empty table. */
  function KeyBounds(rows: seq<Row>): Range {
    if rows == [] then Range(0, -1) else Range(rows[0].key, rows[|rows| - 1].key)
  }

  function ReadLimit(r: Range): nat {
    if r.end > r.start then r.end - r.start else 1
  }

  function ReadAll(rows: seq<Row>, ranges: seq<Range>): seq<seq<Row>> {
    if ranges == [] then []
    else
      var r := ranges[|ranges| - 1];
      ReadAll(rows, ranges[..|ranges| - 1]) + [Select(rows, r.start, r.end, ReadLimit(r))]
  }

  function Upper(rows: seq<Row>, k: nat, versions: nat): int
    requires versions > 0
  {
    var b := KeyBounds(rows);
    Bound(b.start, if b.end >= b.start then b.end - b.start + 1 else 0, k, versions)
  }

  function Version(rows: seq<Row>, k: nat, versions: nat, splits: int): seq<seq<Row>>
    requires versions > 0
  {
    ReadAll(rows, KeyRanges(KeyBounds(rows).start, Upper(rows, k, versions) - 1, splits))
  }

  method PublishRanges(rows: seq<Row>, splits: int, versions: nat) returns (vers: seq<seq<seq<Row>>>)
    ensures |vers| == versions
    ensures forall k | 1 <= k <= versions :: vers[k - 1] == Version(rows, k, versions, splits)
  {
    hide Bound, Version, Upper;
    var b := KeyBounds(rows);
    var lo, hi := b.start, b.end;
    var span := if hi >= lo then hi - lo + 1 else 0;
    vers := [];
    var k := 1;
    while k <= versions
      invariant 1 <= k <= versions + 1 && |vers| == k - 1
      invariant forall j | 1 <= j < k :: vers[j - 1] == Version(rows, j, versions, splits)
    {
      var upper := Bound(lo, span, k, versions);
      var ranges := ComputeKeyRanges(lo, upper - 1, splits);
      var tables: seq<seq<Row>> := [];
      var i := 0;
      while i < |ranges|
        invariant 0 <= i <= |ranges|
        invariant tables == ReadAll(rows, ranges[..i])
      {
        var r := ranges[i];
        assert ranges[..i + 1][..i] == ranges[..i];
        tables := tables + [Select(rows, r.start, r.end, ReadLimit(r))];
        i := i + 1;
      }
      assert ranges[..i] == ranges;
      VersionIs(rows, k, versions, splits);
      vers := vers + [tables];
      k := k + 1;
    }
  }

  lemma VersionIs(rows: seq<Row>, k: nat, versions: nat, splits: int)
    requires versions > 0
    ensures var b := KeyBounds(rows);
            Version(rows, k, versions, splits) ==
            ReadAll(rows, KeyRanges(b.start, Bound(b.start, if b.end >= b.start then b.end - b.start + 1 else 0, k, versions) - 1, splits))
  {
  }

  function Concat(parts: seq<seq<Row>>): seq<Row> {
    if parts == [] then [] else Concat(parts[..|parts| - 1]) + parts[|parts| - 1]
  }

  lemma LimitNeverTruncates(rows: seq<Row>, r: Range)
    requires KeyOrder(rows)
    ensures Select(rows, r.start, r.end, ReadLimit(r)) == Between(rows, r.start, r.end)
  {
    BetweenIsShort(rows, r.start, r.end);
  }

  /** Each range starts where the one before ends. */
  ghost predicate Contiguous(ranges: seq<Range>) {
    && (forall i | 0 <= i < |ranges| :: ranges[i].start <= ranges[i].end)
    && forall i | 0 < i < |ranges| :: ranges[i].start == ranges[i - 1].end
  }

  lemma ReadsSnoc(rows: seq<Row>, ranges: seq<Range>)
    requires KeyOrder(rows) && ranges != []
    ensures var before, r := ranges[..|ranges| - 1], ranges[|ranges| - 1];
            Concat(ReadAll(rows, ranges)) == Concat(ReadAll(rows, before)) + Between(rows, r.start, r.end)
  {
    var n := |ranges| - 1;
    LimitNeverTruncates(rows, ranges[n]);
    ReadAllLength(rows, ranges[..n]);
    hide Between, Select;
    assert ReadAll(rows, ranges)[..n] == ReadAll(rows, ranges[..n]);
  }

  lemma {:induction false} ReadsConcatenate(rows: seq<Row>, ranges: seq<Range>)
    requires KeyOrder(rows) && Contiguous(ranges) && ranges != []
    ensures ranges[0].start <= ranges[|ranges| - 1].end
    ensures Concat(ReadAll(rows, ranges)) == Between(rows, ranges[0].start, ranges[|ranges| - 1].end)
  {
    var n := |ranges| - 1;
    ReadsSnoc(rows, ranges);
    if n == 0 {
      assert ReadAll(rows, ranges[..n]) == [] && Concat([]) == [];
    } else {
      hide Between, ReadAll, Concat;
      ReadsConcatenate(rows, ranges[..n]);
      BetweenSplits(rows, ranges[0].start, ranges[n].start, ranges[n].end);
    }
  }

  lemma {:induction false} ReadAllLength(rows: seq<Row>, ranges: seq<Range>)
    ensures |ReadAll(rows, ranges)| == |ranges|
  {
    if ranges != [] {
      ReadAllLength(rows, ranges[..|ranges| - 1]);
    }
  }

  /** The ranges are contiguous and cover [lo, hi], or [lo, lo] when the interval is empty. */
  lemma RangesCover(lo: int, hi: int, n: int)
    ensures var ranges := KeyRanges(lo, hi, n);
            && Contiguous(ranges) && ranges[0].start == lo
            && ranges[|ranges| - 1].end == (if hi < lo then lo + 1 else hi + 1)
  {
    if lo <= hi {
      var m, span := if n < 1 then 1 else n, hi - lo + 1;
      Ends(lo, span, m);
      hide Bound;
      forall i | 0 <= i < m
        ensures Bound(lo, span, i, m) <= Bound(lo, span, i + 1, m)
      {
        BoundGrows(lo, span, i, i + 1, m);
      }
    }
  }

  lemma BoundGrows(lo: int, span: nat, i: nat, j: nat, n: nat)
    requires n > 0 && i <= j
    ensures Bound(lo, span, i, n) <= Bound(lo, span, j, n)
  {
    MulMonotone(span, i, j);
    QuotientMonotone(span * i, span * j, n);
  }

  /** The first key that version `k` leaves out; every version holds the lowest key. */
  function Frontier(rows: seq<Row>, k: nat, versions: nat): int
    requires versions > 0
  {
    var lo, upper := KeyBounds(rows).start, Upper(rows, k, versions);
    if upper <= lo then lo + 1 else upper
  }

  /** A version holds exactly the rows below its frontier, in key order, none lost or repeated. */
  lemma VersionHolds(rows: seq<Row>, k: nat, versions: nat, splits: int)
    requires KeyOrder(rows) && versions > 0
    ensures Concat(Version(rows, k, versions, splits)) == Between(rows, KeyBounds(rows).start, Frontier(rows, k, versions))
  {
    hide Upper;
    var lo, hi := KeyBounds(rows).start, Upper(rows, k, versions) - 1;
    RangesCover(lo, hi, splits);
    ReadsConcatenate(rows, KeyRanges(lo, hi, splits));
  }

  /** The last version is the whole table in key order. */
  lemma LastVersionIsWholeTable(rows: seq<Row>, versions: nat, splits: int)
    requires KeyOrder(rows) && versions > 0
    ensures Concat(Version(rows, versions, versions, splits)) == rows
  {
    VersionHolds(rows, versions, versions, splits);
    var b := KeyBounds(rows);
    if rows == [] {
      BetweenNothing(rows, b.start, Frontier(rows, versions, versions));
    } else {
      Ends(b.start, b.end - b.start + 1, versions);
      BetweenEverything(rows, b.start, Frontier(rows, versions, versions));
    }
  }

  /** Each version's rows are the first rows of the next. */
  lemma VersionsGrow(rows: seq<Row>, k: nat, versions: nat, splits: int)
    requires KeyOrder(rows) && k < versions
    ensures Concat(Version(rows, k, versions, splits)) <= Concat(Version(rows, k + 1, versions, splits))
  {
    VersionHolds(rows, k, versions, splits);
    VersionHolds(rows, k + 1, versions, splits);
    var b := KeyBounds(rows);
    var span := if b.end >= b.start then b.end - b.start + 1 else 0;
    BoundGrows(b.start, span, k, k + 1, versions);
    BetweenSplits(rows, b.start, Frontier(rows, k, versions), Frontier(rows, k + 1, versions));
  }

  /** Range `i` of `n` starts at the part `i / n` of the interval, rounded down to a key. */
  lemma BoundsAreFloors(lo: int, hi: int, n: nat, i: nat)
    requires lo <= hi && i < n
    ensures var r, span := KeyRanges(lo, hi, n)[i], hi - lo + 1;
            n * (r.start - lo) <= span * i < n * (r.start - lo) + n && n * (r.end - lo) <= span * (i + 1) < n * (r.end - lo) + n
  {
    BoundIsFloor(lo, hi - lo + 1, i, n);
    BoundIsFloor(lo, hi - lo + 1, i + 1, n);
  }

  lemma BoundIsFloor(lo: int, span: nat, i: nat, n: nat)
    requires n > 0
    ensures n * (Bound(lo, span, i, n) - lo) <= span * i < n * (Bound(lo, span, i, n) - lo) + n
  {
    var a := span * i;
    assert a == n * (a / n) + a % n;
  }

  /** A count below one means one range, and an empty interval one key in the first range. */
  lemma OddRequests(lo: int, hi: int, n: int, i: nat)
    requires i < |KeyRanges(lo, hi, n)|
    ensures n < 1 && lo <= hi ==> KeyRanges(lo, hi, n) == [Range(lo, hi + 1)]
    ensures hi < lo ==> KeyRanges(lo, hi, n)[i] == if i == 0 then Range(lo, lo + 1) else Range(lo + 1, lo + 1)
  {
    if n < 1 && lo <= hi {
      Ends(lo, hi - lo + 1, 1);
    }
  }

  lemma {:induction false} BetweenMeans(rows: seq<Row>, lo: int, hi: int, row: Row)
    ensures row in Between(rows, lo, hi) <==> row in rows && lo <= row.key < hi
  {
    if rows != [] {
      BetweenMeans(rows[..|rows| - 1], lo, hi, row);
      assert rows == rows[..|rows| - 1] + [rows[|rows| - 1]];
    }
  }

  lemma {:induction false} ReadAllAt(rows: seq<Row>, ranges: seq<Range>, i: nat)
    requires i < |ranges|
    ensures |ReadAll(rows, ranges)| == |ranges|
    ensures ReadAll(rows, ranges)[i] == Select(rows, ranges[i].start, ranges[i].end, ReadLimit(ranges[i]))
  {
    ReadAllLength(rows, ranges);
    ReadAllLength(rows, ranges[..|ranges| - 1]);
    if i < |ranges| - 1 {
      ReadAllAt(rows, ranges[..|ranges| - 1], i);
    }
  }

  /** Table `i` of version `k` holds the rows of range `i` below `upper`, the part `k / versions` of the key interval. */
  lemma VersionTables(rows: seq<Row>, k: nat, versions: nat, splits: int, i: nat, row: Row) returns (upper: int)
    requires KeyOrder(rows) && rows != [] && 0 < k <= versions
    requires i < |Version(rows, k, versions, splits)|
    ensures |Version(rows, k, versions, splits)| == if splits < 1 then 1 else splits
    ensures var lo, span := rows[0].key, rows[|rows| - 1].key - rows[0].key + 1;
            && versions * (upper - lo) <= span * k < versions * (upper - lo) + versions
            && var r := KeyRanges(lo, upper - 1, splits)[i];
            row in Version(rows, k, versions, splits)[i] <==> row in rows && r.start <= row.key < r.end
  {
    hide Bound, KeyRanges, Select, ReadAll;
    var lo, span := rows[0].key, rows[|rows| - 1].key - rows[0].key + 1;
    upper := Upper(rows, k, versions);
    var ranges := KeyRanges(lo, upper - 1, splits);
    BoundIsFloor(lo, span, k, versions);
    ReadAllLength(rows, ranges);
    ReadAllAt(rows, ranges, i);
    LimitNeverTruncates(rows, ranges[i]);
    BetweenMeans(rows, ranges[i].start, ranges[i].end, row);
  }
}
