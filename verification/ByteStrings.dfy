/** Byte strings with the order of `std::string`: unsigned bytes, compared lexicographically. */
module ByteStrings {

  type byte = x: int | 0 <= x < 256

  type Str = seq<byte>

  predicate Less(a: Str, b: Str) {
    if b == [] then false
    else if a == [] then true
    else a[0] < b[0] || (a[0] == b[0] && Less(a[1..], b[1..]))
  }

  predicate EndsWith(s: Str, suffix: Str) {
    |s| >= |suffix| && s[|s| - |suffix|..] == suffix
  }

  lemma {:induction false} LessTrichotomy(a: Str, b: Str)
    ensures Less(a, b) || a == b || Less(b, a)
    ensures !(Less(a, b) && Less(b, a))
    ensures !Less(a, a)
  {
    if a != [] && b != [] {
      LessTrichotomy(a[1..], b[1..]);
      if a[0] == b[0] && a[1..] == b[1..] {
        assert a == [a[0]] + a[1..] == b;
      }
    }
    if a != [] {
      LessTrichotomy(a[1..], a[1..]);
    }
  }

  lemma {:induction false} LessTransitive(a: Str, b: Str, c: Str)
    requires Less(a, b) && Less(b, c)
    ensures Less(a, c)
  {
    if a != [] && a[0] == b[0] == c[0] {
      LessTransitive(a[1..], b[1..], c[1..]);
    }
  }

  /** A prefix never sorts after the string it starts. */
  lemma {:induction false} PrefixNotGreater(p: Str, s: Str)
    requires p <= s
    ensures !Less(s, p)
  {
    if p != [] {
      PrefixNotGreater(p[1..], s[1..]);
    }
  }

  /** The strings with a given prefix are contiguous in the order. */
  lemma {:induction false} PrefixConvex(p: Str, a: Str, b: Str, c: Str)
    requires p <= a && p <= c
    requires !Less(b, a) && !Less(c, b)
    ensures p <= b
  {
    if p != [] {
      assert b != [] && b[0] == p[0];
      PrefixConvex(p[1..], a[1..], b[1..], c[1..]);
      assert p == [p[0]] + p[1..];
      assert b == [b[0]] + b[1..];
    }
  }
}
