/** Byte strings as numbers, most significant byte first. */
module BigEndian {
  import opened ByteStrings

  function Pow2(n: nat): (r: nat)
    ensures r > 0
  {
    if n == 0 then 1 else 2 * Pow2(n - 1)
  }

  /** The value of a byte string, most significant byte first. */
  function Unsigned(s: Str): nat {
    if s == [] then 0 else Unsigned(s[..|s| - 1]) * 256 + s[|s| - 1]
  }

  lemma {:induction false} PowSum(a: nat, b: nat)
    ensures Pow2(a + b) == Pow2(a) * Pow2(b)
  {
    if a > 0 {
      PowSum(a - 1, b);
    }
  }

  lemma {:induction false} PowMonotone(a: nat, b: nat)
    requires a <= b
    ensures Pow2(a) <= Pow2(b)
  {
    if a < b {
      PowMonotone(a, b - 1);
    }
  }

  lemma PowByte(n: nat)
    ensures Pow2(n + 8) == 256 * Pow2(n)
  {
    PowSum(8, n);
    assert Pow2(8) == 256;
  }

  lemma {:induction false} UnsignedCons(b: byte, s: Str)
    ensures Unsigned([b] + s) == b * Pow2(8 * |s|) + Unsigned(s)
  {
    if s == [] {
      assert [b] + s == [b];
    } else {
      var t, x := s[..|s| - 1], s[|s| - 1];
      UnsignedCons(b, t);
      assert ([b] + s)[..|s|] == [b] + t;
      hide Pow2;
      PowByte(8 * |t|);
      assert b * (256 * Pow2(8 * |t|)) == 256 * (b * Pow2(8 * |t|));
    }
  }

  lemma {:induction false} UnsignedBound(s: Str)
    ensures Unsigned(s) < Pow2(8 * |s|)
  {
    if s != [] {
      UnsignedBound(s[..|s| - 1]);
      PowByte(8 * (|s| - 1));
    }
  }
}
