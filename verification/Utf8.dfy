/** UTF-8 repair: ill-formed input becomes U+FFFD, well-formed input stays. */
module Utf8 {
  import opened ByteStrings
  import opened Sequences

  // The grammar of section 4 of RFC 3629.

  predicate Tail(b: byte) {
    0x80 <= b <= 0xbf
  }

  predicate IsCharacter(c: Str) {
    || (|c| == 1 && c[0] <= 0x7f)
    || (|c| == 2 && 0xc2 <= c[0] <= 0xdf && Tail(c[1]))
    || (|c| == 3 && Tail(c[2])
        && (|| (c[0] == 0xe0 && 0xa0 <= c[1] <= 0xbf)
            || (0xe1 <= c[0] <= 0xec && Tail(c[1]))
            || (c[0] == 0xed && 0x80 <= c[1] <= 0x9f)
            || (0xee <= c[0] <= 0xef && Tail(c[1]))))
    || (|c| == 4 && Tail(c[2]) && Tail(c[3])
        && (|| (c[0] == 0xf0 && 0x90 <= c[1] <= 0xbf)
            || (0xf1 <= c[0] <= 0xf3 && Tail(c[1]))
            || (c[0] == 0xf4 && 0x80 <= c[1] <= 0x8f)))
  }

  /** The length of the character that `s` starts with, 0 if there is none. */
  function HeadLength(s: Str): (n: nat)
    ensures n <= |s|
  {
    if |s| >= 1 && IsCharacter(s[..1]) then 1
    else if |s| >= 2 && IsCharacter(s[..2]) then 2
    else if |s| >= 3 && IsCharacter(s[..3]) then 3
    else if |s| >= 4 && IsCharacter(s[..4]) then 4
    else 0
  }

  predicate WellFormed(s: Str)
    decreases |s|
  {
    s == [] || (HeadLength(s) > 0 && WellFormed(s[HeadLength(s)..]))
  }

  /** Some character begins with `p`. */
  ghost predicate StartsCharacter(p: Str) {
    exists rest: Str :: IsCharacter(p + rest)
  }

  // The repair.

  function ExpectedLength(first: byte): nat {
    if 0xc2 <= first <= 0xdf then 2
    else if 0xe0 <= first <= 0xef then 3
    else if 0xf0 <= first <= 0xf4 then 4
    else 0
  }

  /** `next` may stand at position `consumed` of a character that begins with `first`. */
  predicate Continues(first: byte, next: byte, consumed: nat) {
    && 0x80 <= next <= 0xbf
    && !(consumed == 1 && (|| (first == 0xe0 && next < 0xa0)
                           || (first == 0xed && next > 0x9f)
                           || (first == 0xf0 && next < 0x90)
                           || (first == 0xf4 && next > 0x8f)))
  }

  function Extent(s: Str, length: nat, consumed: nat): (r: nat)
    requires 1 <= consumed <= |s|
    ensures consumed <= r <= |s| && (consumed <= length ==> r <= length)
    decreases |s| - consumed
  {
    if consumed < length && consumed < |s| && Continues(s[0], s[consumed], consumed) then Extent(s, length, consumed + 1)
    else consumed
  }

  const REPLACEMENT: Str := [0xef, 0xbf, 0xbd]

  /** How many bytes the next step takes, and what it emits for them. */
  function Taken(s: Str): (n: nat)
    requires s != []
    ensures 1 <= n <= |s|
  {
    if s[0] < 0x80 || ExpectedLength(s[0]) == 0 then 1 else Extent(s, ExpectedLength(s[0]), 1)
  }

  function Emitted(s: Str): Str
    requires s != []
  {
    if s[0] < 0x80 || (ExpectedLength(s[0]) != 0 && Taken(s) == ExpectedLength(s[0])) then s[..Taken(s)] else REPLACEMENT
  }

  function Repair(s: Str): Str
    decreases |s|
  {
    if s == [] then [] else Emitted(s) + Repair(s[Taken(s)..])
  }

  method ReplaceInvalid(bytes: Str) returns (result: Str)
    ensures result == Repair(bytes)
  {
    hide Taken, Emitted;
    result := [];
    var i := 0;
    while i < |bytes|
      invariant 0 <= i <= |bytes|
      invariant result + Repair(bytes[i..]) == Repair(bytes)
    {
      var emitted, consumed := RepairHead(bytes, i);
      assert bytes[i..][consumed..] == bytes[i + consumed..];
      AppendAssociative(result, emitted, Repair(bytes[i + consumed..]));
      result := result + emitted;
      i := i + consumed;
    }
  }

  method RepairHead(bytes: Str, i: nat) returns (emitted: Str, consumed: nat)
    requires i < |bytes|
    ensures emitted == Emitted(bytes[i..]) && consumed == Taken(bytes[i..])
  {
    ghost var rest := bytes[i..];
    assert rest[0] == bytes[i];
    var first := bytes[i];
    if first < 0x80 {
      return [bytes[i]], 1;
    }
    var length := ExpectedLength(first);
    consumed := Measure(bytes, i, length);
    if length != 0 && consumed == length {
      assert bytes[i..i + consumed] == rest[..consumed];
      emitted := bytes[i..i + consumed];
    } else {
      emitted := REPLACEMENT;
    }
  }

  method Measure(bytes: Str, i: nat, length: nat) returns (consumed: nat)
    requires i < |bytes|
    ensures consumed == if length == 0 then 1 else Extent(bytes[i..], length, 1)
  {
    consumed := 1;
    if length != 0 {
      while consumed < length && i + consumed < |bytes|
        invariant 1 <= consumed <= |bytes| - i
        invariant Extent(bytes[i..], length, consumed) == Extent(bytes[i..], length, 1)
      {
        assert bytes[i..][consumed] == bytes[i + consumed];
        if !Continues(bytes[i], bytes[i + consumed], consumed) {
          break;
        }
        consumed := consumed + 1;
      }
    }
  }

  // Correctness of the repair.

  lemma {:induction false} ExtentAccepts(s: Str, length: nat, consumed: nat, k: nat)
    requires 1 <= consumed <= |s| && consumed <= k < Extent(s, length, consumed)
    ensures k < |s| && Continues(s[0], s[k], k)
    decreases |s| - consumed
  {
    if consumed < k {
      ExtentAccepts(s, length, consumed + 1, k);
    }
  }

  lemma {:induction false} ExtentStops(s: Str, length: nat, consumed: nat)
    requires 1 <= consumed <= |s|
    ensures var r := Extent(s, length, consumed);
            r < length && r < |s| ==> !Continues(s[0], s[r], r)
    decreases |s| - consumed
  {
    if consumed < length && consumed < |s| && Continues(s[0], s[consumed], consumed) {
      ExtentStops(s, length, consumed + 1);
    }
  }

  /** The grammar, restated by the first byte and the continuation test. */
  lemma CharacterByBytes(c: Str)
    ensures IsCharacter(c) <==>
            && c != []
            && (if c[0] < 0x80 then |c| == 1 else |c| == ExpectedLength(c[0]))
            && forall k | 1 <= k < |c| :: Continues(c[0], c[k], k)
  {
  }

  lemma HeadOfCharacter(s: Str, n: nat)
    requires n <= |s| && IsCharacter(s[..n])
    ensures HeadLength(s) == n
  {
    assert forall k | 1 <= k <= |s| :: s[..k][0] == s[0];
  }

  /** The three bytes of U+FFFD. */
  ghost predicate IsReplacementCharacter(c: Str) {
    IsCharacter(c) && |c| == 3 && (c[0] as int - 0xe0) * 4096 + (c[1] as int - 0x80) * 64 + (c[2] as int - 0x80) == 0xfffd
  }

  /** A step copies exactly the characters of the grammar. */
  lemma TakenIsCharacter(s: Str)
    requires s != []
    ensures HeadLength(s) > 0 ==> Taken(s) == HeadLength(s) && Emitted(s) == s[..Taken(s)]
    ensures HeadLength(s) == 0 ==> IsReplacementCharacter(Emitted(s))
  {
    var n := Taken(s);
    var copied := s[0] < 0x80 || (ExpectedLength(s[0]) != 0 && n == ExpectedLength(s[0]));
    if copied {
      TakenContinues(s);
      CharacterByBytes(s[..n]);
      HeadOfCharacter(s, n);
    } else if HeadLength(s) > 0 {
      NoneMissed(s, HeadLength(s));
    }
  }

  lemma TakenContinues(s: Str)
    requires s != []
    ensures forall k | 1 <= k < Taken(s) :: Continues(s[0], s[k], k)
  {
    forall k | 1 <= k < Taken(s)
      ensures Continues(s[0], s[k], k)
    {
      ExtentAccepts(s, ExpectedLength(s[0]), 1, k);
    }
  }

  lemma NoneMissed(s: Str, n: nat)
    requires s != [] && s[0] >= 0x80 && n <= |s| && IsCharacter(s[..n])
    ensures n == ExpectedLength(s[0]) == Taken(s)
  {
    var c := s[..n];
    CharacterByBytes(c);
    ExtentStops(s, n, 1);
    assert forall k | 1 <= k < n :: c[k] == s[k];
  }

  lemma {:induction false} RepairIsWellFormed(s: Str)
    ensures WellFormed(Repair(s))
    decreases |s|
  {
    if s != [] {
      var rest := Repair(s[Taken(s)..]);
      RepairIsWellFormed(s[Taken(s)..]);
      TakenIsCharacter(s);
      var c := Emitted(s);
      assert IsCharacter(c);
      assert (c + rest)[..|c|] == c && (c + rest)[|c|..] == rest;
      HeadOfCharacter(c + rest, |c|);
    }
  }

  lemma {:induction false} RepairKeepsWellFormed(s: Str)
    requires WellFormed(s)
    ensures Repair(s) == s
    decreases |s|
  {
    hide Taken, Emitted, HeadLength;
    if s != [] {
      TakenIsCharacter(s);
      RepairKeepsWellFormed(s[Taken(s)..]);
      assert s == s[..Taken(s)] + s[Taken(s)..];
    }
  }

  /**
    * What one replacement character stands for: the longest run of bytes that begins some character,
    * or one byte that begins none.
    */
  lemma ReplacesMaximalSubpart(s: Str)
    requires s != [] && HeadLength(s) == 0
    ensures Taken(s) == 1 || StartsCharacter(s[..Taken(s)])
    ensures Taken(s) < |s| ==> !StartsCharacter(s[..Taken(s) + 1])
  {
    var n := Taken(s);
    if n > 1 {
      TakenContinues(s);
      TakenIsCharacter(s);
      CompleteCharacter(s[..n]);
    }
    if n < |s| {
      var p := s[..n + 1];
      forall rest: Str
        ensures !IsCharacter(p + rest)
      {
        var c := p + rest;
        assert c[0] == s[0] && c[n] == s[n] && forall k | 1 <= k < n :: c[k] == s[k];
        CharacterByBytes(c);
        ExtentStops(s, ExpectedLength(s[0]), 1);
      }
    }
  }

  /** A proper beginning of a character can be completed with continuation bytes. */
  lemma CompleteCharacter(p: Str)
    requires |p| >= 2 && p[0] >= 0x80 && |p| < ExpectedLength(p[0])
    requires forall k | 1 <= k < |p| :: Continues(p[0], p[k], k)
    ensures StartsCharacter(p)
  {
    var rest: Str := if ExpectedLength(p[0]) - |p| == 1 then [0x80] else [0x80, 0x80];
    var c := p + rest;
    assert c[0] == p[0] && forall k | 1 <= k < |p| :: c[k] == p[k];
    CharacterByBytes(c);
    assert IsCharacter(p + rest);
  }
}
