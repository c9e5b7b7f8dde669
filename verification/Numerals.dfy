/** Decimal digit strings and their values. */
module Numerals {
  import opened ByteStrings

  predicate IsDigit(b: byte) {
    48 <= b <= 57
  }

  predicate Digits(s: Str) {
    forall i | 0 <= i < |s| :: IsDigit(s[i])
  }

  /** The value of a digit string. */
  function Number(s: Str): nat
    requires Digits(s)
  {
    if s == [] then 0 else Number(s[..|s| - 1]) * 10 + (s[|s| - 1] - 48)
  }

  lemma NumberSnoc(s: Str, d: byte)
    requires Digits(s) && IsDigit(d)
    ensures Digits(s + [d]) && Number(s + [d]) == Number(s) * 10 + (d - 48)
  {
    assert (s + [d])[..|s|] == s;
  }

  /** What `find_first_not_of('0')` followed by `substr` leaves. */
  function StripZeros(s: Str): (r: Str)
    ensures r == [] || r[0] != 48
    ensures |r| <= |s| && r == s[|s| - |r|..]
  {
    if s == [] || s[0] != 48 then s else StripZeros(s[1..])
  }

  lemma {:induction false} LeadingZero(s: Str)
    requires s != [] && s[0] == 48 && Digits(s)
    ensures Number(s[1..]) == Number(s)
  {
    if |s| > 1 {
      var t := s[..|s| - 1];
      LeadingZero(t);
      assert s[1..][..|s| - 2] == t[1..];
    } else {
      assert s[..|s| - 1] == [];
    }
  }

  lemma {:induction false} StripZerosKeepsValue(s: Str)
    requires Digits(s)
    ensures Digits(StripZeros(s)) && Number(StripZeros(s)) == Number(s)
  {
    if s != [] && s[0] == 48 {
      LeadingZero(s);
      StripZerosKeepsValue(s[1..]);
    }
  }

  lemma {:induction false} NoLeadingZeroIsPositive(s: Str)
    requires s != [] && Digits(s) && s[0] != 48
    ensures Number(s) > 0
  {
    if |s| > 1 {
      NoLeadingZeroIsPositive(s[..|s| - 1]);
    } else {
      assert s[..|s| - 1] == [];
    }
  }
}
