/** Integer parsing without overflow, and single byte ranges. */
module Ranges {
  import opened Wrappers
  import opened ByteStrings
  import opened Arithmetic
  import opened Numerals
  import opened Splitting

  predicate HasSign(s: Str) {
    s != [] && (s[0] == 43 || s[0] == 45)
  }

  function Unsign(s: Str): Str {
    if HasSign(s) then s[1..] else s
  }

  /** The value of an optionally signed, non-empty digit string. */
  function IntegerOf(s: Str): Option<int> {
    var digits := Unsign(s);
    if digits == [] || !Digits(digits) then None
    else Some(if s[0] == 45 then 0 - Number(digits) else Number(digits))
  }

  function InInt64(v: Option<int>): Option<int> {
    if v.Some? && INT64_MIN <= v.value <= INT64_MAX then v else None
  }

  lemma {:induction false} NumberGrows(s: Str, i: nat)
    requires Digits(s) && i <= |s|
    ensures Number(s[..i]) <= Number(s)
  {
    if i < |s| {
      var n := |s| - 1;
      NumberGrows(s[..n], i);
      assert s[..n][..i] == s[..i];
    } else {
      assert s[..i] == s;
    }
  }

  /** The accumulation loop: the value of the digits unless it exceeds `limit`, and never above it on the way. */
  method Accumulate(digits: Str, limit: nat) returns (acc: Option<nat>)
    requires limit <= UINT64_MAX
    ensures acc == if Digits(digits) && Number(digits) <= limit then Some(Number(digits)) else None
  {
    var value, i := 0, 0;
    while i < |digits|
      invariant 0 <= i <= |digits| && value <= limit
      invariant Digits(digits[..i]) && value == Number(digits[..i])
    {
      var c := digits[i];
      if c < 48 || c > 57 {
        return None;
      }
      var d := c - 48;
      NumberSnoc(digits[..i], c);
      assert digits[..i + 1] == digits[..i] + [c];
      if value > limit / 10 || (value == limit / 10 && d > limit % 10) {
        if Digits(digits) {
          NumberGrows(digits, i + 1);
        }
        return None;
      }
      value := value * 10 + d;
      i := i + 1;
    }
    assert digits[..i] == digits;
    return Some(value);
  }

  /** Accepts exactly the optionally signed digit strings with a value in the 64-bit range. */
  method ParseI64(s: Str) returns (r: Option<int>)
    ensures r == InInt64(IntegerOf(s))
  {
    hide Number;
    if s == [] {
      return None;
    }
    var neg := s[0] == 45;
    var digits := Unsign(s);
    if digits == [] {
      return None;
    }
    var acc := Accumulate(digits, if neg then INT64_MAX + 1 else INT64_MAX);
    if acc.None? {
      return None;
    }
    var value: int := acc.value;
    return Some(if neg then -value else value);
  }

  // Range headers.

  const BYTES_EQUALS: Str := [98, 121, 116, 101, 115, 61]
  const COMMA: byte := 44
  const DASH: byte := 45

  datatype Spec = Suffix(length: int) | From(first: int) | Between(first: int, last: int)

  /** The first range of the header: `-length`, `first-` or `first-last`. */
  function SpecOf(range: Str): Option<Spec> {
    if !(BYTES_EQUALS <= range) then None
    else
      var list := range[|BYTES_EQUALS|..];
      var spec := list[..Find(list, COMMA)];
      var dash := Find(spec, DASH);
      if dash == |spec| then None
      else
        var first, last := InInt64(IntegerOf(spec[..dash])), InInt64(IntegerOf(spec[dash + 1..]));
        if dash == 0 then
          if last.Some? && last.value > 0 then Some(Suffix(last.value)) else None
        else if first.None? || first.value < 0 then None
        else if spec[dash + 1..] == [] then Some(From(first.value))
        else if last.None? || last.value < 0 then None
        else Some(Between(first.value, last.value))
  }

  /** The byte positions a range asks for, by section 14.1.2 of RFC 9110. */
  predicate Asks(spec: Spec, total: int, p: int) {
    match spec
    case Suffix(length) => p >= total - length
    case From(first) => p >= first
    case Between(first, last) => first <= p <= last
  }

  datatype RangeResult = RangeResult(partial: bool, unsatisfiable: bool, invalid: bool, start: int, end: int)

  method ParseRangeHeader(range: Str, total: int) returns (rr: RangeResult)
    ensures range == [] ==> rr == RangeResult(false, false, false, 0, total - 1)
    ensures range != [] && (total < 0 || SpecOf(range).None?) ==> rr == RangeResult(false, false, true, 0, total - 1)
    ensures range != [] && total >= 0 && SpecOf(range).Some? ==> rr == Resolve(SpecOf(range).value, total)
  {
    hide IntegerOf;
    rr := RangeResult(false, false, false, 0, total - 1);
    if range == [] {
      return;
    }
    if !(BYTES_EQUALS <= range) || total < 0 {
      return rr.(invalid := true);
    }
    var list := range[|BYTES_EQUALS|..];
    var spec := list[..Find(list, COMMA)];
    var dash := Find(spec, DASH);
    if dash == |spec| {
      return rr.(invalid := true);
    }
    var a, b := spec[..dash], spec[dash + 1..];
    if a == [] {
      var n := ParseI64(b);
      if n.None? || n.value <= 0 {
        return rr.(invalid := true);
      }
      var length := if n.value > total then total else n.value;
      return RangeResult(true, false, false, total - length, total - 1);
    }
    var start := ParseI64(a);
    if start.None? || start.value < 0 {
      return rr.(invalid := true);
    }
    var end := total - 1;
    if b != [] {
      var given := ParseI64(b);
      if given.None? || given.value < 0 {
        return rr.(invalid := true);
      }
      end := given.value;
    }
    if start.value >= total {
      return rr.(unsatisfiable := true);
    }
    if end > total - 1 {
      end := total - 1;
    }
    if end < start.value {
      return rr.(unsatisfiable := true);
    }
    return RangeResult(true, false, false, start.value, end);
  }

  /** What a well-formed range means for an object of `total` bytes. */
  function Resolve(spec: Spec, total: int): RangeResult {
    var first := if spec.Suffix? then (if spec.length > total then 0 else total - spec.length) else spec.first;
    var last := if spec.Between? && spec.last < total - 1 then spec.last else total - 1;
    if spec.Suffix? || first <= last then RangeResult(true, false, false, first, last)
    else RangeResult(false, true, false, 0, total - 1)
  }

  /** For a non-empty object the answer is exactly the bytes asked for, or unsatisfiable if there are none. */
  lemma ResolvesToAsked(range: Str, total: int, p: int)
    requires SpecOf(range).Some? && total >= 1
    ensures var spec := SpecOf(range).value;
            var rr := Resolve(spec, total);
            && !rr.invalid && rr.partial == !rr.unsatisfiable
            && (rr.partial ==> 0 <= rr.start <= rr.end < total && Asks(spec, total, rr.start))
            && (rr.partial && 0 <= p < total ==> (rr.start <= p <= rr.end <==> Asks(spec, total, p)))
            && (rr.unsatisfiable && 0 <= p < total ==> !Asks(spec, total, p))
  {
    hide IntegerOf, Find;
  }

  /** An empty object has no such answer: a suffix range is answered as partial from 0 to -1, any other is unsatisfiable. */
  lemma EmptyObject(range: Str)
    requires SpecOf(range).Some?
    ensures var spec := SpecOf(range).value;
            Resolve(spec, 0) == if spec.Suffix? then RangeResult(true, false, false, 0, -1) else RangeResult(false, true, false, 0, -1)
  {
    hide IntegerOf, Find;
  }

  /** The length that is sent. */
  function SendLength(rr: RangeResult, total: int): int {
    var start := if rr.partial then rr.start else 0;
    var end := if rr.partial then rr.end else total - 1;
    if total == 0 then 0 else end - start + 1
  }

  function CountAsked(spec: Spec, total: nat): nat {
    if total == 0 then 0 else CountAskedBelow(spec, total, total)
  }

  /** How many of the first `n` positions of an object of `total` bytes are asked for. */
  function CountAskedBelow(spec: Spec, total: int, n: nat): nat {
    if n == 0 then 0 else CountAskedBelow(spec, total, n - 1) + (if Asks(spec, total, n - 1) then 1 else 0)
  }

  lemma {:induction false} CountInterval(spec: Spec, total: int, n: nat, start: int, end: int)
    requires 0 <= start && forall p | 0 <= p < n :: Asks(spec, total, p) <==> start <= p <= end
    ensures CountAskedBelow(spec, total, n) == if end < start || n <= start then 0 else if n <= end then n - start else end - start + 1
  {
    if n > 0 {
      CountInterval(spec, total, n - 1, start, end);
    }
  }

  /** The length sent is the number of bytes asked for, also for an empty object. */
  lemma SendsWhatIsAsked(range: Str, total: nat)
    requires SpecOf(range).Some? && Resolve(SpecOf(range).value, total).partial
    ensures SendLength(Resolve(SpecOf(range).value, total), total) == CountAsked(SpecOf(range).value, total)
  {
    hide IntegerOf, Find;
    var spec := SpecOf(range).value;
    if total > 0 {
      var rr := Resolve(spec, total);
      forall p | 0 <= p < total
        ensures Asks(spec, total, p) <==> rr.start <= p <= rr.end
      {
        ResolvesToAsked(range, total, p);
      }
      ResolvesToAsked(range, total, 0);
      CountInterval(spec, total, total, rr.start, rr.end);
    }
  }

  // What the header says.

  /** `s` is an optional sign and digits that denote `v`, within 64 bits. */
  ghost predicate Denotes(s: Str, v: int) {
    && INT64_MIN <= v <= INT64_MAX
    && (|| (s != [] && Digits(s) && v == Number(s))
        || (|s| > 1 && s[0] == '+' as int && Digits(s[1..]) && v == Number(s[1..]))
        || (|s| > 1 && s[0] == '-' as int && Digits(s[1..]) && v == 0 - Number(s[1..])))
  }

  lemma IntegerMeans(s: Str, v: int)
    ensures InInt64(IntegerOf(s)) == Some(v) <==> Denotes(s, v)
  {
    if s != [] && Digits(s) {
      assert IsDigit(s[0]);
    }
  }

  /** A comma ends the first range of a list. */
  ghost predicate Ends(rest: Str) {
    rest == [] || rest[0] == ',' as int
  }

  /** "bytes=a-b" asks for the last b bytes, all from a on, or those from a to b; anything else in place of a or b is refused. */
  lemma SpecMeans(a: Str, b: Str, rest: Str, spec: Spec)
    requires DASH !in a && COMMA !in a && COMMA !in b && Ends(rest)
    ensures SpecOf(BYTES_EQUALS + a + [DASH] + b + rest) == Some(spec) <==>
            match spec
            case Suffix(n) => a == [] && n > 0 && Denotes(b, n)
            case From(n) => b == [] && n >= 0 && Denotes(a, n)
            case Between(m, n) => m >= 0 && n >= 0 && Denotes(a, m) && Denotes(b, n)
  {
    SpecParts(a, b, rest);
    hide Number, InInt64, Denotes, IntegerOf;
    forall v
      ensures InInt64(IntegerOf(a)) == Some(v) <==> Denotes(a, v)
      ensures InInt64(IntegerOf(b)) == Some(v) <==> Denotes(b, v)
    {
      IntegerMeans(a, v);
      IntegerMeans(b, v);
    }
    NothingDenoted(a);
    NothingDenoted(b);
  }

  lemma NothingDenoted(s: Str)
    ensures s == [] ==> InInt64(IntegerOf(s)) == None
  {
  }

  lemma SpecParts(a: Str, b: Str, rest: Str)
    requires DASH !in a && COMMA !in a && COMMA !in b && Ends(rest)
    ensures var range := BYTES_EQUALS + a + [DASH] + b + rest;
            var list := range[|BYTES_EQUALS|..];
            && BYTES_EQUALS <= range && list[..Find(list, COMMA)] == a + [DASH] + b
            && Find(a + [DASH] + b, DASH) == |a| && (a + [DASH] + b)[..|a|] == a && (a + [DASH] + b)[|a| + 1..] == b
  {
    hide Find;
    var spec := a + [DASH] + b;
    AfterPrefix(BYTES_EQUALS, a, b, rest);
    assert (spec + rest)[..|spec|] == spec;
    FindAt(spec + rest, COMMA, |spec|);
    assert spec[..|a|] == a;
    FindAt(spec, DASH, |a|);
  }

  lemma AfterPrefix(prefix: Str, a: Str, b: Str, rest: Str)
    ensures var range := prefix + a + [DASH] + b + rest;
            prefix <= range && range[|prefix|..] == a + [DASH] + b + rest
  {
  }

  lemma InParts(prefix: Str, range: Str, comma: nat, dash: nat)
    requires prefix <= range && dash < comma <= |range| - |prefix| && range[|prefix| + dash] == DASH
    ensures var list := range[|prefix|..];
            range == prefix + list[..comma][..dash] + [DASH] + list[..comma][dash + 1..] + list[comma..]
  {
  }

  /** Only headers of that form are accepted. */
  lemma SpecHasForm(range: Str) returns (a: Str, b: Str, rest: Str)
    requires SpecOf(range).Some?
    ensures DASH !in a && COMMA !in a && COMMA !in b && Ends(rest) && range == BYTES_EQUALS + a + [DASH] + b + rest
    ensures BYTES_EQUALS == ['b' as int, 'y' as int, 't' as int, 'e' as int, 's' as int, '=' as int]
  {
    hide Find, InInt64, IntegerOf;
    var list := range[|BYTES_EQUALS|..];
    var comma := Find(list, COMMA);
    var spec := list[..comma];
    var dash := Find(spec, DASH);
    a, b, rest := spec[..dash], spec[dash + 1..], list[comma..];
    assert range[|BYTES_EQUALS| + dash] == spec[dash];
    InParts(BYTES_EQUALS, range, comma, dash);
  }
}
