/** Decimal column bounds: a signed decimal string as big-endian two's complement. */
module DecimalBounds {
  import opened Arithmetic
  import opened BigEndian
  import opened ByteStrings
  import opened Numerals

  /** The value of a byte string as two's complement. */
  function Signed(s: Str): int {
    if s != [] && s[0] >= 128 then Unsigned(s) - Pow2(8 * |s|) else Unsigned(s)
  }

  function DropDots(s: Str): Str {
    if s == [] then []
    else if s[|s| - 1] == 46 then DropDots(s[..|s| - 1])
    else DropDots(s[..|s| - 1]) + [s[|s| - 1]]
  }

  predicate Negative(value: Str) {
    value != [] && value[0] == 45
  }

  function Body(value: Str): Str {
    if Negative(value) then value[1..] else value
  }

  /** An optional minus sign, then digits with decimal points anywhere among them. */
  predicate Decimal(value: Str) {
    forall i | 0 <= i < |Body(value)| :: IsDigit(Body(value)[i]) || Body(value)[i] == 46
  }

  lemma {:induction false} DropDotsLeavesDigits(s: Str)
    requires forall i | 0 <= i < |s| :: IsDigit(s[i]) || s[i] == 46
    ensures Digits(DropDots(s))
  {
    if s != [] {
      DropDotsLeavesDigits(s[..|s| - 1]);
    }
  }

  /** The unscaled value that the string denotes. */
  function UnscaledValue(value: Str): int
    requires Decimal(value)
  {
    DropDotsLeavesDigits(Body(value));
    var n := Number(DropDots(Body(value)));
    if Negative(value) then 0 - n else n
  }

  function Abs(v: int): nat {
    if v < 0 then -v else v
  }

  // Ranges of two's complement.

  /** The values that two's complement of `length` bytes can hold. */
  predicate InRange(v: int, length: nat)
    requires length > 0
  {
    0 - Pow2(8 * length - 1) <= v < Pow2(8 * length - 1)
  }

  lemma SignedInRange(s: Str)
    requires s != []
    ensures InRange(Signed(s), |s|)
  {
    var rest := s[1..];
    assert s == [s[0]] + rest;
    UnsignedCons(s[0], rest);
    UnsignedBound(rest);
    TopBit(s[0], Unsigned(rest), |rest|);
  }

  lemma TopBit(b: byte, low: nat, n: nat)
    requires low < Pow2(8 * n)
    ensures var v := b * Pow2(8 * n) + low;
            && (b >= 128 <==> v >= Pow2(8 * n + 7))
            && v < Pow2(8 * n + 8) == 2 * Pow2(8 * n + 7)
  {
    hide Pow2;
    PowByte(8 * n);
    PowHalf(8 * n);
    LeadingByte(b, low, Pow2(8 * n));
  }

  lemma PowHalf(n: nat)
    ensures Pow2(n + 7) == 128 * Pow2(n)
  {
    PowSum(7, n);
    assert Pow2(7) == 128;
  }

  lemma LeadingByte(b: byte, low: nat, p: nat)
    requires low < p
    ensures b >= 128 <==> b * p + low >= 128 * p
    ensures b * p + low < 256 * p
  {
    assert b >= 128 ==> (b - 128) * p >= 0;
    assert b <= 127 ==> (127 - b) * p >= 0;
    assert (255 - b) * p >= 0;
  }

  lemma SignedOf(s: Str, v: int)
    requires s != [] && InRange(v, |s|)
    requires Unsigned(s) == if v >= 0 then v else v + Pow2(8 * |s|)
    ensures Signed(s) == v
  {
    var rest := s[1..];
    assert s == [s[0]] + rest;
    UnsignedCons(s[0], rest);
    UnsignedBound(rest);
    TopBit(s[0], Unsigned(rest), |rest|);
  }

  // Magnitude bytes.

  /** One long division of a digit string by 256. */
  method DivideBy256(digits: Str) returns (q: Str, rem: byte)
    requires Digits(digits)
    ensures Digits(q) && |q| == |digits|
    ensures Number(digits) == Number(q) * 256 + rem
  {
    q, rem := [], 0;
    var i := 0;
    while i < |digits|
      invariant 0 <= i <= |digits| && |q| == i
      invariant Digits(q) && Number(digits[..i]) == Number(q) * 256 + rem
    {
      var cur := rem * 10 + (digits[i] - 48);
      NumberSnoc(digits[..i], digits[i]);
      NumberSnoc(q, 48 + cur / 256);
      assert digits[..i + 1] == digits[..i] + [digits[i]];
      q := q + [48 + cur / 256];
      rem := cur % 256;
      i := i + 1;
    }
    assert digits[..|digits|] == digits;
  }

  function Reversed(s: Str): Str {
    if s == [] then [] else [s[|s| - 1]] + Reversed(s[..|s| - 1])
  }

  lemma UnsignedReversedSnoc(s: Str, b: byte)
    ensures |Reversed(s)| == |s|
    ensures Unsigned(Reversed(s + [b])) == b * Pow2(8 * |s|) + Unsigned(Reversed(s))
  {
    ReversedLength(s);
    assert (s + [b])[..|s|] == s;
    UnsignedCons(b, Reversed(s));
  }

  lemma {:induction false} ReversedLength(s: Str)
    ensures |Reversed(s)| == |s|
  {
    if s != [] {
      ReversedLength(s[..|s| - 1]);
    }
  }

  /** The quotient string with its leading zeros dropped, "0" when nothing is left. */
  function Canonical(q: Str): Str {
    if StripZeros(q) == [] then [48] else StripZeros(q)
  }

  lemma CanonicalValue(q: Str)
    requires Digits(q)
    ensures Digits(Canonical(q)) && Number(Canonical(q)) == Number(q)
    ensures Canonical(q) == [48] <==> Number(q) == 0
  {
    StripZerosKeepsValue(q);
    if StripZeros(q) != [] {
      NoLeadingZeroIsPositive(StripZeros(q));
    } else {
      NumberSnoc([], 48);
      assert [] + [48] == [48];
    }
  }

  /** What is still to be divided, placed above the bytes produced so far. */
  ghost function Assembled(rest: nat, le: Str): nat {
    rest * Pow2(8 * |le|) + Unsigned(Reversed(le))
  }

  lemma EmptyIsZero()
    ensures Number([]) == 0 && Unsigned([]) == 0
  {
  }

  lemma AssembledStart(n: nat)
    ensures Assembled(n, []) == n
  {
  }

  lemma AssembledStep(q: nat, rem: byte, le: Str)
    ensures Assembled(q, le + [rem]) == Assembled(q * 256 + rem, le)
  {
    var p := Pow2(8 * |le|);
    UnsignedReversedSnoc(le, rem);
    PowByte(8 * |le|);
    hide Pow2, Unsigned, Reversed;
    assert q * (256 * p) + rem * p == (q * 256 + rem) * p;
  }

  lemma AssembledEnd(le: Str)
    ensures Unsigned(Reversed(le)) == Assembled(0, le)
    ensures le != [] ==> Reversed(le) != [] && Reversed(le)[0] == le[|le| - 1]
  {
  }

  /** Big-endian magnitude without a leading zero byte; empty for zero. */
  method MagnitudeBytes(number: Str) returns (magnitude: Str)
    requires Digits(number)
    ensures Unsigned(magnitude) == Number(number)
    ensures magnitude != [] ==> magnitude[0] != 0
  {
    hide Number, Assembled, Canonical, Unsigned, Reversed, StripZeros;
    StripZerosKeepsValue(number);
    var digits := StripZeros(number);
    if digits == [] {
      EmptyIsZero();
      return [];
    }
    NoLeadingZeroIsPositive(digits);
    var le: Str := [];
    AssembledStart(Number(digits));
    while digits != [48]
      invariant Digits(digits) && (digits == [48] <==> Number(digits) == 0)
      invariant Assembled(Number(digits), le) == Number(number)
      invariant digits == [48] ==> le != [] && le[|le| - 1] != 0
      decreases Number(digits)
    {
      var q, rem := DivideBy256(digits);
      CanonicalValue(q);
      AssembledStep(Number(q), rem, le);
      le := le + [rem];
      digits := Canonical(q);
    }
    AssembledEnd(le);
    magnitude := Reversed(le);
  }

  // The encoder.

  method JoinDigits(body: Str) returns (unscaled: Str)
    ensures unscaled == DropDots(body)
  {
    unscaled := [];
    var i := 0;
    while i < |body|
      invariant 0 <= i <= |body| && unscaled == DropDots(body[..i])
    {
      assert body[..i + 1][..i] == body[..i];
      if body[i] != 46 {
        unscaled := unscaled + [body[i]];
      }
      i := i + 1;
    }
    assert body[..|body|] == body;
  }

  method BitWidth(b: byte) returns (bits: nat)
    requires b > 0
    ensures 1 <= bits <= 8 && Pow2(bits - 1) <= b < Pow2(bits)
  {
    var top: nat := b;
    bits := 0;
    while top != 0
      invariant Pow2(bits) * top <= b < Pow2(bits) * (top + 1)
      invariant top == 0 ==> bits > 0 && Pow2(bits - 1) <= b
      decreases top
    {
      Halve(Pow2(bits), top, b);
      bits := bits + 1;
      top := top / 2;
    }
    if bits > 8 {
      PowMonotone(8, bits - 1);
    }
  }

  lemma Halve(p: nat, top: nat, b: nat)
    requires p * top <= b < p * (top + 1) && top > 0
    ensures (2 * p) * (top / 2) <= b < (2 * p) * (top / 2 + 1)
    ensures p <= b
  {
    var h := top / 2;
    assert (2 * p) * h == p * (2 * h);
    assert (2 * p) * (h + 1) == p * (2 * h + 2);
    assert p * (top - 2 * h) >= 0 && p * (2 * h + 2 - (top + 1)) >= 0;
    assert p * (top - 1) >= 0;
  }

  /** `Pow2(n - 1) <= v < Pow2(n)`, with 0 bits for zero. */
  predicate HasBitLength(v: nat, n: nat) {
    v < Pow2(n) && (n > 0 ==> Pow2(n - 1) <= v)
  }

  method BitLength(magnitude: Str) returns (n: nat)
    requires magnitude != [] ==> magnitude[0] != 0
    ensures HasBitLength(Unsigned(magnitude), n)
    ensures 8 * |magnitude| < n + 8 <= 8 * |magnitude| + 8
  {
    if magnitude == [] {
      return 0;
    }
    var bits := BitWidth(magnitude[0]);
    n := (|magnitude| - 1) * 8 + bits;
    BitsOfBytes(magnitude, bits);
  }

  lemma BitsOfBytes(s: Str, bits: nat)
    requires s != [] && bits > 0 && Pow2(bits - 1) <= s[0] < Pow2(bits)
    ensures HasBitLength(Unsigned(s), (|s| - 1) * 8 + bits)
  {
    var rest := s[1..];
    var p := Pow2(8 * |rest|);
    assert s == [s[0]] + rest;
    UnsignedCons(s[0], rest);
    UnsignedBound(rest);
    PowSum(8 * |rest|, bits);
    PowSum(8 * |rest|, bits - 1);
    hide Pow2, Unsigned;
    Scaled(p, Unsigned(rest), s[0], Pow2(bits - 1), Pow2(bits));
  }

  lemma Scaled(p: nat, low: nat, x: nat, from: nat, to: nat)
    requires low < p && from <= x < to
    ensures p * from <= x * p + low < p * to
  {
    MulMonotone(p, from, x);
    MulMonotone(p, x + 1, to);
  }

  lemma {:induction false} LeadingZeroBytes(n: nat, s: Str, padded: Str)
    requires |padded| == n + |s| && padded[n..] == s && forall i | 0 <= i < n :: padded[i] == 0
    ensures Unsigned(padded) == Unsigned(s)
  {
    if n == 0 {
      assert padded == s;
    } else {
      assert padded == [0] + padded[1..];
      UnsignedCons(0, padded[1..]);
      LeadingZeroBytes(n - 1, s, padded[1..]);
    }
  }

  method Pad(magnitude: Str, length: nat) returns (out: array<byte>)
    requires |magnitude| <= length
    ensures fresh(out) && out.Length == length && Unsigned(out[..]) == Unsigned(magnitude)
  {
    out := new byte[length](_ => 0);
    var i := 0;
    while i < |magnitude|
      invariant 0 <= i <= |magnitude|
      invariant forall k | 0 <= k < length - i :: out[k] == 0
      invariant out[length - i..] == magnitude[|magnitude| - i..]
    {
      out[length - 1 - i] := magnitude[|magnitude| - 1 - i];
      assert out[length - 1 - i..] == [out[length - 1 - i]] + out[length - i..];
      assert magnitude[|magnitude| - 1 - i..] == [magnitude[|magnitude| - 1 - i]] + magnitude[|magnitude| - i..];
      i := i + 1;
    }
    assert out[..][length - |magnitude|..] == magnitude;
    LeadingZeroBytes(length - |magnitude|, magnitude, out[..]);
  }

  /** `done` is the complement of `was` plus a carry that has not yet left it. */
  ghost predicate Complements(done: Str, was: Str, carry: int) {
    && |done| == |was| && 0 <= carry <= 1
    && Unsigned(done) + Unsigned(was) == if carry == 1 then 0 else Pow2(8 * |was|)
  }

  lemma CarryStep(b: byte, carry: int, done: Str, was: Str)
    requires Complements(done, was, carry)
    ensures var v: int := 255 - b + carry; Complements([v % 256] + done, [b] + was, v / 256)
  {
    var v: int := 255 - b + carry;
    var p := Pow2(8 * |was|);
    UnsignedCons(v % 256, done);
    UnsignedCons(b, was);
    PowByte(8 * |was|);
    hide Pow2, Unsigned;
    assert (255 - b) * p + b * p == 255 * p;
    assert (256 - b) * p == (255 - b) * p + p;
  }

  lemma ComplementEnds(done: Str, was: Str, carry: int)
    requires Complements(done, was, carry) && Unsigned(was) > 0
    ensures Unsigned(done) == Pow2(8 * |was|) - Unsigned(was)
  {
  }

  lemma ComplementStarts()
    ensures Complements([], [], 1)
  {
  }

  /** Two's complement in place, from the last byte to the first. */
  method Negate(out: array<byte>)
    requires Unsigned(out[..]) > 0
    modifies out
    ensures Unsigned(out[..]) == Pow2(8 * out.Length) - old(Unsigned(out[..]))
  {
    hide Complements, Unsigned, Pow2;
    ghost var was := out[..];
    var carry, i := 1, out.Length;
    ComplementStarts();
    assert out[i..] == [] && was[i..] == [];
    while i > 0
      invariant 0 <= i <= out.Length
      invariant out[..i] == was[..i]
      invariant Complements(out[i..], was[i..], carry)
    {
      i := i - 1;
      assert out[i] == was[..i + 1][i];
      var v: int := 255 - out[i] + carry;
      ghost var done := out[i + 1..];
      CarryStep(was[i], carry, done, was[i + 1..]);
      out[i] := v % 256;
      assert out[i..] == [out[i]] + done && was[i..] == [was[i]] + was[i + 1..];
      carry := v / 256;
    }
    assert out[0..] == out[..] && was[0..] == was;
    ComplementEnds(out[..], was, carry);
  }

  /** The length the encoder chooses: the least one whose range holds both the value and its negation. */
  ghost predicate CodeLength(v: int, length: nat) {
    && length > 0
    && Abs(v) < Pow2(8 * length - 1)
    && forall l: nat | l < length :: TooShort(v, l)
  }

  predicate TooShort(v: int, length: nat) {
    length == 0 || Pow2(8 * length - 1) <= Abs(v)
  }

  lemma CodeLengthOf(v: int, n: nat)
    requires HasBitLength(Abs(v), n)
    ensures CodeLength(v, (n + 8) / 8)
  {
    var length := (n + 8) / 8;
    PowMonotone(n, 8 * length - 1);
    forall l: nat | l < length
      ensures TooShort(v, l)
    {
      if l > 0 {
        PowMonotone(8 * l - 1, n - 1);
      }
    }
  }

  method EncodeDecimal(value: Str) returns (bytes: Str)
    requires Decimal(value)
    ensures Signed(bytes) == UnscaledValue(value)
    ensures CodeLength(UnscaledValue(value), |bytes|)
  {
    hide Pow2, Unsigned, Number, Signed;
    var neg := Negative(value);
    var unscaled := JoinDigits(Body(value));
    DropDotsLeavesDigits(Body(value));
    var magnitude := MagnitudeBytes(unscaled);
    EmptyIsZero();
    if magnitude == [] {
      neg := false;
    }
    var bitLength := BitLength(magnitude);
    ghost var v := UnscaledValue(value);
    assert Abs(v) == Unsigned(magnitude);
    CodeLengthOf(v, bitLength);
    var length := (bitLength + 8) / 8;
    var out := Pad(magnitude, length);
    if neg {
      PositiveBytes(magnitude);
      Negate(out);
    }
    bytes := out[..];
    SignedOf(bytes, v);
  }

  lemma PositiveBytes(s: Str)
    requires s != [] && s[0] != 0
    ensures Unsigned(s) > 0
  {
    assert s == [s[0]] + s[1..];
    UnsignedCons(s[0], s[1..]);
  }

  // How far the chosen length is from the shortest two's complement.

  /** No byte string shorter than `length` decodes to `v`, and some of that length can. */
  ghost predicate Shortest(v: int, length: nat) {
    length > 0 && InRange(v, length) && forall l: nat | 0 < l < length :: !InRange(v, l)
  }

  /** The negative powers of two that just fit a whole number of bytes. */
  ghost predicate Boundary(v: int) {
    exists k: nat :: IsBoundary(v, k)
  }

  predicate IsBoundary(v: int, k: nat) {
    k > 0 && v == 0 - Pow2(8 * k - 1)
  }

  lemma NothingShorterDecodes(v: int, length: nat, s: Str)
    requires Shortest(v, length) && s != [] && Signed(s) == v
    ensures length <= |s|
  {
    SignedInRange(s);
  }

  lemma BoundaryTakesOneMore(v: int, length: nat, k: nat)
    requires CodeLength(v, length) && IsBoundary(v, k)
    ensures Shortest(v, k) && length == k + 1
  {
    PowByte(8 * k - 1);
    assert k + 1 < length ==> TooShort(v, k + 1);
    if length <= k {
      PowMonotone(8 * length - 1, 8 * k - 1);
    }
    forall l: nat | 0 < l < k
      ensures !InRange(v, l)
    {
      PowMonotone(8 * l - 1, 8 * k - 9);
      PowByte(8 * k - 9);
    }
  }

  /** The encoding has the shortest length exactly when the value is not a boundary. */
  lemma ShortestUnlessBoundary(v: int, length: nat)
    requires CodeLength(v, length)
    ensures Shortest(v, length) <==> !Boundary(v)
  {
    if Boundary(v) {
      var k: nat :| IsBoundary(v, k);
      BoundaryTakesOneMore(v, length, k);
    } else {
      forall l: nat | 0 < l < length
        ensures !InRange(v, l)
      {
        assert TooShort(v, l) && !IsBoundary(v, l);
      }
    }
  }

  // The unscaled value, read from left to right.

  lemma {:induction false} DropDotsSnoc(s: Str, b: byte)
    ensures DropDots(s + [b]) == if b == 46 then DropDots(s) else DropDots(s) + [b]
  {
    assert (s + [b])[..|s|] == s;
  }

  /** A digit counts ten times what stands before it, and a point counts nothing. */
  lemma UnscaledReads(s: Str, b: byte)
    requires Decimal(s) && !Negative(s + [b]) && (IsDigit(b) || b == 46)
    ensures Decimal(s + [b])
    ensures UnscaledValue(s + [b]) == if b == 46 then UnscaledValue(s) else UnscaledValue(s) * 10 + (b - 48)
  {
    hide DropDots, Number;
    assert s != [] ==> (s + [b])[0] == s[0];
    assert Body(s + [b]) == s + [b] && Body(s) == s;
    DropDotsSnoc(s, b);
    DropDotsLeavesDigits(s);
    if b != 46 {
      NumberSnoc(DropDots(s), b);
    }
  }

  /** A minus sign in front negates it, and nothing is zero. */
  lemma UnscaledNegates(s: Str)
    requires Decimal(s) && !Negative(s)
    ensures Decimal([45] + s) && UnscaledValue([45] + s) == 0 - UnscaledValue(s)
    ensures UnscaledValue([]) == 0
  {
    assert Body([45] + s) == s && Body(s) == s;
    assert DropDots([]) == [] && Number([]) == 0;
  }
}
