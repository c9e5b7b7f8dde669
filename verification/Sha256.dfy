/** Streaming SHA-256 around an arbitrary compression function. */
module Sha256 {
  import opened Arithmetic
  import opened BigEndian
  import opened ByteStrings
  import opened Sequences

  /** The chaining value; the compression function is a parameter. */
  type Words = seq<nat>

  type Compression = (Words, Str) -> Words

  const INITIAL: Words := [0x6a09e667, 0xbb67ae85, 0x3c6ef372, 0xa54ff53a, 0x510e527f, 0x9b05688c, 0x1f83d9ab, 0x5be0cd19]

  const TWO_64 := 0x1_0000_0000_0000_0000

  /** The chaining value after the whole 64-byte blocks of `s`. */
  function Blocks(f: Compression, s: Str): Words
    requires |s| % 64 == 0
  {
    if s == [] then INITIAL else f(Blocks(f, s[..|s| - 64]), s[|s| - 64..])
  }

  function Zeros(n: nat): (r: Str)
    ensures |r| == n
  {
    seq(n, _ => 0)
  }

  /** The number of zero bytes in the padding: the least that leaves room for the length in the last block. */
  function ZeroCount(length: nat): (k: nat)
    ensures k < 64 && (length + 1 + k) % 64 == 56
  {
    (119 - length % 64) % 64
  }

  /** The lowest `width` bytes of a number, most significant first. */
  function BytesOf(n: nat, width: nat): (r: Str)
    ensures |r| == width
  {
    seq(width, i requires 0 <= i < width => n / Pow2(8 * (width - 1 - i)) % 256)
  }

  function LengthBytes(n: nat): (r: Str)
    ensures |r| == 8
  {
    BytesOf(n, 8)
  }

  /** The output bytes of a chaining value: four for each word. */
  function Output(words: Words): Str {
    if words == [] then [] else Output(words[..|words| - 1]) + BytesOf(words[|words| - 1], 4)
  }

  /** The padding of section 5.1.1 of FIPS 180-4, with the bit count modulo 2^64. */
  function Padding(length: nat): Str {
    [0x80] + Zeros(ZeroCount(length)) + LengthBytes(8 * length % TWO_64)
  }

  function Digest(f: Compression, message: Str): Words {
    PaddedIsWhole(|message|);
    Blocks(f, message + Padding(|message|))
  }

  lemma PaddedIsWhole(length: nat)
    ensures (length + |Padding(length)|) % 64 == 0
  {
    var n := length + 1 + ZeroCount(length);
    hide ZeroCount;
    assert length + |Padding(length)| == n + 8;
  }

  lemma BlocksSnoc(f: Compression, s: Str, block: Str)
    requires |s| % 64 == 0 && |block| == 64
    ensures |s + block| % 64 == 0 && Blocks(f, s + block) == f(Blocks(f, s), block)
  {
    assert (s + block)[..|s|] == s && (s + block)[|s|..] == block;
  }

  class Hasher {
    const f: Compression
    const buffer: array<byte>
    var buflen: nat
    var bitlen: nat
    var state: Words
    ghost var whole: Str

    /** `whole` are the bytes already compressed; the buffer holds the rest of the message. */
    ghost predicate Core()
      reads this, buffer
    {
      buffer.Length == 64 && buflen <= 64 && |whole| % 64 == 0 && state == Blocks(f, whole)
    }

    ghost predicate Valid()
      reads this, buffer
    {
      Core() && buflen < 64 && bitlen == 8 * |whole| % TWO_64
    }

    ghost function Message(): Str
      requires buflen <= buffer.Length
      reads this, buffer
    {
      whole + buffer[..buflen]
    }

    constructor (f: Compression)
      ensures Valid() && Message() == [] && this.f == f && fresh(buffer)
    {
      this.f, buffer, buflen, bitlen, state, whole := f, new byte[64], 0, 0, INITIAL, [];
    }

    /** Compresses the full buffer and starts it again. */
    method Transform()
      requires Core() && buflen == 64
      modifies this
      ensures Core() && buflen == 0 && bitlen == old(bitlen)
      ensures whole == old(Message()) == Message() && |whole| == old(|whole|) + 64
    {
      assert buffer[..64] == buffer[..];
      BlocksSnoc(f, whole, buffer[..]);
      state := f(state, buffer[..]);
      whole := whole + buffer[..];
      buflen := 0;
      assert buffer[..0] == [];
    }

    method Append(b: byte)
      requires Core() && buflen < 64
      modifies this, buffer
      ensures Core() && buflen == old(buflen) + 1 && whole == old(whole) && bitlen == old(bitlen)
      ensures Message() == old(Message()) + [b]
    {
      ghost var before := buffer[..buflen];
      buffer[buflen] := b;
      buflen := buflen + 1;
      assert buffer[..buflen] == before + [b];
    }

    method UpdateByte(b: byte)
      requires Valid()
      modifies this, buffer
      ensures Valid() && Message() == old(Message()) + [b]
    {
      hide Blocks;
      Append(b);
      if buflen == 64 {
        ghost var compressed := |whole|;
        Transform();
        AddBits(compressed);
        bitlen := (bitlen + 512) % TWO_64;
      }
    }

    method Update(data: Str)
      requires Valid()
      modifies this, buffer
      ensures Valid() && Message() == old(Message()) + data
    {
      hide Blocks;
      var i := 0;
      while i < |data|
        invariant 0 <= i <= |data|
        invariant Valid()
        invariant Message() == old(Message()) + data[..i]
      {
        UpdateByte(data[i]);
        assert data[..i + 1] == data[..i] + [data[i]];
        AppendAssociative(old(Message()), data[..i], [data[i]]);
        i := i + 1;
      }
      assert data[..i] == data;
    }

    method AppendZeros(limit: nat)
      requires Core() && buflen <= limit <= 64
      modifies this, buffer
      ensures Core() && buflen == limit && whole == old(whole) && bitlen == old(bitlen)
      ensures Message() == old(Message()) + Zeros(limit - old(buflen))
    {
      hide Blocks;
      ghost var start := buflen;
      while buflen < limit
        invariant Core() && start <= buflen <= limit && whole == old(whole) && bitlen == old(bitlen)
        invariant Message() == old(Message()) + Zeros(buflen - start)
      {
        assert Zeros(buflen + 1 - start) == Zeros(buflen - start) + [0];
        AppendAssociative(old(Message()), Zeros(buflen - start), [0]);
        Append(0);
      }
    }

    method AppendLength(totalBits: nat)
      requires Core() && buflen == 56
      modifies this, buffer
      ensures Core() && buflen == 64
      ensures Message() == old(Message()) + LengthBytes(totalBits)
    {
      hide Blocks, Pow2;
      var i := 0;
      while i < 8
        invariant 0 <= i <= 8 && Core() && buflen == 56 + i
        invariant Message() == old(Message()) + LengthBytes(totalBits)[..i]
      {
        ghost var bytes := LengthBytes(totalBits);
        assert bytes[i] == totalBits / Pow2(8 * (7 - i)) % 256;
        assert bytes[..i + 1] == bytes[..i] + [bytes[i]];
        AppendAssociative(old(Message()), bytes[..i], [bytes[i]]);
        Append(totalBits / Pow2(8 * (7 - i)) % 256);
        i := i + 1;
      }
      assert LengthBytes(totalBits)[..8] == LengthBytes(totalBits);
    }

    /** The end mark and the zeros, through another block if the length does not fit in this one. */
    method AppendMark()
      requires Core() && buflen < 64
      modifies this, buffer
      ensures Core() && buflen == 56
      ensures Message() == old(Message()) + [0x80] + Zeros(ZeroCount(old(|Message()|)))
    {
      hide Blocks, Zeros, ZeroCount;
      ghost var message, used := Message(), buflen;
      ghost var marked := message + [0x80];
      Append(0x80);
      if buflen > 56 {
        AppendZeros(64);
        Transform();
        AppendZeros(56);
        ZerosAppend(63 - used, 56);
        AppendAssociative(marked, Zeros(63 - used), Zeros(56));
      } else {
        AppendZeros(56);
      }
      PaddingZeros(|message|, used, if used < 56 then 55 - used else 119 - used);
    }

    /** The digest of everything fed to the object, however it was chopped. */
    method Finalize() returns (hash: Str)
      requires Valid()
      modifies this, buffer
      ensures hash == Output(Digest(f, old(Message())))
    {
      hide Blocks, LengthBytes, Padding, Zeros, ZeroCount;
      ghost var message := Message();
      TotalBits(|whole|, buflen);
      var totalBits := (bitlen + buflen * 8) % TWO_64;
      AppendMark();
      AppendLength(totalBits);
      Assemble(message, ZeroCount(|message|), totalBits);
      Transform();
      hash := WriteWords(state);
    }
  }

  method WriteWords(words: Words) returns (hash: Str)
    ensures hash == Output(words)
  {
    hash := [];
    var i := 0;
    while i < |words|
      invariant 0 <= i <= |words| && hash == Output(words[..i])
    {
      ghost var bytes := BytesOf(words[i], 4);
      assert words[..i + 1][..i] == words[..i];
      var before := hash;
      var j := 0;
      while j < 4
        invariant 0 <= j <= 4 && hash == before + bytes[..j]
      {
        assert bytes[..j + 1] == bytes[..j] + [bytes[j]];
        hash := hash + [words[i] / Pow2(8 * (3 - j)) % 256];
        j := j + 1;
      }
      assert bytes[..4] == bytes;
      i := i + 1;
    }
    assert words[..i] == words;
  }

  lemma AddBits(compressed: nat)
    ensures (8 * compressed % TWO_64 + 512) % TWO_64 == 8 * (compressed + 64) % TWO_64
  {
  }

  lemma TotalBits(compressed: nat, buffered: nat)
    ensures (8 * compressed % TWO_64 + buffered * 8) % TWO_64 == 8 * (compressed + buffered) % TWO_64
  {
  }

  lemma ZerosAppend(a: nat, b: nat)
    ensures Zeros(a) + Zeros(b) == Zeros(a + b)
  {
  }

  /** The code pads to byte 56, through another block if fewer than eight bytes are left. */
  lemma PaddingZeros(length: nat, used: nat, zeros: nat)
    requires length % 64 == used && zeros == if used < 56 then 55 - used else 119 - used
    ensures zeros == ZeroCount(length)
  {
  }

  lemma Assemble(message: Str, zeros: nat, totalBits: nat)
    requires zeros == ZeroCount(|message|) && totalBits == 8 * |message| % TWO_64
    ensures message + [0x80] + Zeros(zeros) + LengthBytes(totalBits) == message + Padding(|message|)
  {
    AppendAssociative(message, [0x80], Zeros(zeros));
    AppendAssociative(message, [0x80] + Zeros(zeros), LengthBytes(totalBits));
  }

  /** The eight length bytes hold the bit count, and the four of an output word the word. */
  lemma BytesHoldValue(n: nat, width: nat)
    requires n < Pow2(8 * width)
    ensures Unsigned(BytesOf(n, width)) == n
  {
    BytesPrefix(n, width, width);
    assert BytesOf(n, width)[..width] == BytesOf(n, width);
    assert Pow2(0) == 1;
  }

  lemma LengthBytesValue(n: nat)
    requires n < TWO_64
    ensures Unsigned(LengthBytes(n)) == n
  {
    PowEight();
    BytesHoldValue(n, 8);
  }

  lemma {:induction false} BytesPrefix(n: nat, width: nat, i: nat)
    requires n < Pow2(8 * width) && i <= width
    ensures Unsigned(BytesOf(n, width)[..i]) == n / Pow2(8 * (width - i))
  {
    if i == 0 {
      Quotient(n, Pow2(8 * width), 0);
    } else {
      BytesPrefix(n, width, i - 1);
      var bytes := BytesOf(n, width);
      assert bytes[..i][..i - 1] == bytes[..i - 1];
      assert bytes[i - 1] == n / Pow2(8 * (width - i)) % 256;
      assert Unsigned(bytes[..i]) == Unsigned(bytes[..i - 1]) * 256 + bytes[i - 1];
      hide Unsigned, BytesOf;
      PowByte(8 * (width - i));
      DivideTwice(n, Pow2(8 * (width - i)));
    }
  }

  lemma PowEight()
    ensures Pow2(64) == TWO_64
  {
    assert Pow2(0) == 1;
    hide Pow2;
    PowByte(0);
    PowByte(8);
    PowByte(16);
    PowByte(24);
    PowSum(32, 32);
  }

  lemma DivideTwice(n: nat, p: nat)
    requires p > 0
    ensures n / p == n / (256 * p) * 256 + n / p % 256
  {
    var x := n / p;
    assert n == p * x + n % p && x == 256 * (x / 256) + x % 256;
    assert p * x == (256 * p) * (x / 256) + p * (x % 256);
    assert p * (x % 256) + n % p < 256 * p by {
      MulMonotone(p, x % 256, 255);
    }
    Quotient(n, 256 * p, x / 256);
  }

  /** The initial words are the first 32 bits of the fractional parts of the square roots of the first eight primes. */
  lemma InitialIsRoots(i: nat)
    requires i < 8
    ensures |INITIAL| == 8
    ensures var p, whole := [2, 3, 5, 7, 11, 13, 17, 19][i], [1, 1, 2, 2, 3, 3, 4, 4][i];
            var root := whole * 0x1_0000_0000 + INITIAL[i];
            0 <= INITIAL[i] < 0x1_0000_0000 && root * root <= p * TWO_64 < (root + 1) * (root + 1)
  {
  }

  /**
    * The padding of section 5.1.1 of FIPS 180-4: a one bit, the fewest zero bits that leave 64 to a whole block, and the
    * bit count of the message in those.
    */
  lemma PaddingMeans(length: nat)
    ensures var p := Padding(length);
            && 9 <= |p| <= 72 && (length + |p|) % 64 == 0
            && p[0] == 128 && (forall i | 1 <= i < |p| - 8 :: p[i] == 0)
            && Unsigned(p[|p| - 8..]) == 8 * length % TWO_64
  {
    var p := Padding(length);
    PaddedIsWhole(length);
    assert p[|p| - 8..] == LengthBytes(8 * length % TWO_64);
    LengthBytesValue(8 * length % TWO_64);
  }

  /** Word `i` of the hash is written at bytes `4 * i` to `4 * i + 3`. */
  lemma {:induction false} OutputAt(words: Words, i: nat)
    requires i < |words| && words[i] < 0x1_0000_0000
    ensures |Output(words)| == 4 * |words| && Unsigned(Output(words)[4 * i..4 * i + 4]) == words[i]
  {
    var before, last := words[..|words| - 1], words[|words| - 1];
    OutputLength(before);
    if i < |words| - 1 {
      OutputAt(before, i);
      assert Output(words)[4 * i..4 * i + 4] == Output(before)[4 * i..4 * i + 4];
    } else {
      assert Output(words)[4 * i..4 * i + 4] == BytesOf(last, 4);
      PowFour();
      BytesHoldValue(last, 4);
    }
  }

  lemma {:induction false} OutputLength(words: Words)
    ensures |Output(words)| == 4 * |words|
  {
    if words != [] {
      OutputLength(words[..|words| - 1]);
    }
  }

  lemma PowFour()
    ensures Pow2(32) == 0x1_0000_0000
  {
    PowSum(16, 16);
    PowSum(8, 8);
    assert Pow2(8) == 256 by { PowByte(0); assert Pow2(0) == 1; }
  }
}
