/** Percent coding of query components and paths. */
module UriCoding {
  import opened ByteStrings
  import opened Sequences
  import Utf8

  /** The unreserved characters of section 2.3 of RFC 3986. */
  predicate Unreserved(c: byte) {
    65 <= c <= 90 || 97 <= c <= 122 || 48 <= c <= 57 || c == 45 || c == 46 || c == 95 || c == 126
  }

  function HexDigit(n: nat): byte
    requires n < 16
  {
    if n < 10 then 48 + n else 55 + n
  }

  function HexValue(c: byte): int {
    if 48 <= c <= 57 then c - 48
    else if 97 <= c <= 102 then c - 87
    else if 65 <= c <= 70 then c - 55
    else -1
  }

  function EncodeByte(c: byte, keepSlash: bool): Str {
    if Unreserved(c) || (keepSlash && c == 47) then [c] else [37, HexDigit(c / 16), HexDigit(c % 16)]
  }

  function Encode(text: Str, keepSlash: bool): Str {
    if text == [] then [] else EncodeByte(text[0], keepSlash) + Encode(text[1..], keepSlash)
  }

  /** `s` starts with a percent sign and two hexadecimal digits. */
  predicate StartsEscape(s: Str) {
    |s| >= 3 && s[0] == 37 && HexValue(s[1]) >= 0 && HexValue(s[2]) >= 0
  }

  /** Undoes the escapes; malformed ones stay as they are. */
  function DecodeBytes(text: Str): Str {
    if text == [] then []
    else if StartsEscape(text) then [HexValue(text[1]) * 16 + HexValue(text[2])] + DecodeBytes(text[3..])
    else [text[0]] + DecodeBytes(text[1..])
  }

  function Decode(text: Str): Str {
    Utf8.Repair(DecodeBytes(text))
  }

  method UriEncode(text: Str, keepSlash: bool) returns (result: Str)
    ensures result == Encode(text, keepSlash)
  {
    result := [];
    var i := 0;
    while i < |text|
      invariant 0 <= i <= |text|
      invariant result + Encode(text[i..], keepSlash) == Encode(text, keepSlash)
    {
      var c := text[i];
      assert text[i..][0] == c && text[i..][1..] == text[i + 1..];
      AppendAssociative(result, EncodeByte(c, keepSlash), Encode(text[i + 1..], keepSlash));
      if Unreserved(c) || (keepSlash && c == 47) {
        result := result + [c];
      } else {
        result := result + [37, HexDigit(c / 16), HexDigit(c % 16)];
      }
      i := i + 1;
    }
  }

  method UriDecode(text: Str) returns (result: Str)
    ensures result == Decode(text)
  {
    var bytes: Str := [];
    var i := 0;
    while i < |text|
      invariant 0 <= i <= |text|
      invariant bytes + DecodeBytes(text[i..]) == DecodeBytes(text)
    {
      ghost var rest := text[i..];
      var step: Str := [text[i]];
      var width := 1;
      if text[i] == 37 && |text| - i >= 3 {
        var high, low := HexValue(text[i + 1]), HexValue(text[i + 2]);
        if high >= 0 && low >= 0 {
          step, width := [high * 16 + low], 3;
        }
      }
      assert rest[width..] == text[i + width..];
      assert DecodeBytes(rest) == step + DecodeBytes(rest[width..]);
      AppendAssociative(bytes, step, DecodeBytes(text[i + width..]));
      bytes := bytes + step;
      i := i + width;
    }
    assert text[i..] == [];
    assert bytes == DecodeBytes(text);
    result := Utf8.ReplaceInvalid(bytes);
  }

  lemma HexRoundTrip(n: nat)
    requires n < 16
    ensures HexValue(HexDigit(n)) == n
  {
  }

  lemma DecodeHead(c: byte, keepSlash: bool, rest: Str)
    ensures DecodeBytes(EncodeByte(c, keepSlash) + rest) == [c] + DecodeBytes(rest)
  {
    var code := EncodeByte(c, keepSlash);
    assert (code + rest)[|code|..] == rest;
    HexRoundTrip(c / 16);
    HexRoundTrip(c % 16);
  }

  lemma {:induction false} DecodeBytesInverts(text: Str, keepSlash: bool)
    ensures DecodeBytes(Encode(text, keepSlash)) == text
  {
    if text != [] {
      DecodeBytesInverts(text[1..], keepSlash);
      DecodeHead(text[0], keepSlash, Encode(text[1..], keepSlash));
    }
  }

  /** Decoding an encoded string repairs it as UTF-8 and changes nothing else. */
  lemma DecodeInvertsEncode(text: Str, keepSlash: bool)
    ensures Decode(Encode(text, keepSlash)) == Utf8.Repair(text)
    ensures Utf8.WellFormed(text) ==> Decode(Encode(text, keepSlash)) == text
  {
    DecodeBytesInverts(text, keepSlash);
    if Utf8.WellFormed(text) {
      Utf8.RepairKeepsWellFormed(text);
    }
  }

  /** Re-encoding what was decoded gives a fixed point. */
  lemma RecodingIsIdempotent(text: Str, keepSlash: bool)
    ensures Encode(Decode(Encode(Decode(text), keepSlash)), keepSlash) == Encode(Decode(text), keepSlash)
  {
    Utf8.RepairIsWellFormed(DecodeBytes(text));
    DecodeInvertsEncode(Decode(text), keepSlash);
  }

  ghost predicate SafeBytes(s: Str) {
    forall i | 0 <= i < |s| :: Unreserved(s[i]) || s[i] == 37
  }

  lemma {:induction false} EncodedIsSafe(text: Str)
    ensures SafeBytes(Encode(text, false))
  {
    if text != [] {
      EncodedIsSafe(text[1..]);
    }
  }

  // The request path: valid escapes stay, a stray percent sign is escaped.

  function EscapeStray(path: Str): Str {
    if path == [] then []
    else if StartsEscape(path) then path[..3] + EscapeStray(path[3..])
    else if path[0] == 37 then [37, 50, 53] + EscapeStray(path[1..])
    else [path[0]] + EscapeStray(path[1..])
  }

  function CanonicalPath(path: Str): Str {
    if path == [] then [47] else EscapeStray(path)
  }

  method CanonicalUri(path: Str) returns (result: Str)
    ensures result == CanonicalPath(path)
  {
    if path == [] {
      return [47];
    }
    result := [];
    var i := 0;
    while i < |path|
      invariant 0 <= i <= |path|
      invariant result + EscapeStray(path[i..]) == EscapeStray(path)
    {
      ghost var rest := path[i..];
      var step: Str := [path[i]];
      var width := 1;
      if path[i] == 37 {
        if |path| - i >= 3 && HexValue(path[i + 1]) >= 0 && HexValue(path[i + 2]) >= 0 {
          step, width := path[i..i + 3], 3;
          assert step == rest[..3];
        } else {
          step := [37, 50, 53];
        }
      }
      assert rest[width..] == path[i + width..];
      assert EscapeStray(rest) == step + EscapeStray(rest[width..]);
      AppendAssociative(result, step, EscapeStray(path[i + width..]));
      result := result + step;
      i := i + width;
    }
  }

  /** Every percent sign starts an escape. */
  predicate Escaped(path: Str)
    decreases |path|
  {
    path == [] || (if path[0] == 37 then StartsEscape(path) && Escaped(path[3..]) else Escaped(path[1..]))
  }

  lemma {:induction false} EscapeStrayEscapes(path: Str)
    ensures Escaped(EscapeStray(path))
    ensures DecodeBytes(EscapeStray(path)) == DecodeBytes(path)
    decreases |path|
  {
    if path == [] {
    } else if StartsEscape(path) {
      EscapeStrayEscapes(path[3..]);
      assert EscapeStray(path)[3..] == EscapeStray(path[3..]);
    } else {
      EscapeStrayEscapes(path[1..]);
      var n := if path[0] == 37 then 3 else 1;
      assert EscapeStray(path)[n..] == EscapeStray(path[1..]);
    }
  }

  lemma {:induction false} EscapeStrayKeepsEscaped(path: Str)
    requires Escaped(path)
    ensures EscapeStray(path) == path
    decreases |path|
  {
    if path != [] {
      var n := if path[0] == 37 then 3 else 1;
      EscapeStrayKeepsEscaped(path[n..]);
      assert path == path[..n] + path[n..];
    }
  }

  /** The canonical path is well escaped, decodes to the same bytes and is its own canonical path. */
  lemma CanonicalPathIsIdempotent(path: Str)
    ensures Escaped(CanonicalPath(path)) && CanonicalPath(path) != []
    ensures path != [] ==> DecodeBytes(CanonicalPath(path)) == DecodeBytes(path)
    ensures CanonicalPath(CanonicalPath(path)) == CanonicalPath(path)
    ensures CanonicalPath(path) == path <==> path != [] && Escaped(path)
  {
    EscapeStrayEscapes(path);
    EscapeStrayKeepsEscaped(CanonicalPath(path));
    if Escaped(path) {
      EscapeStrayKeepsEscaped(path);
    }
  }

  // The coding, byte by byte.

  /** ALPHA / DIGIT / "-" / "." / "_" / "~", in section 2.3 of RFC 3986. */
  ghost predicate IsUnreservedCharacter(c: byte) {
    || 'A' as int <= c <= 'Z' as int || 'a' as int <= c <= 'z' as int || '0' as int <= c <= '9' as int
    || c in {'-' as int, '.' as int, '_' as int, '~' as int}
  }

  const HEX: string := "0123456789ABCDEF"

  /** A byte is kept if it is unreserved, or a slash that is to be kept; otherwise it is escaped in upper-case hexadecimal. */
  lemma EncodesByte(c: byte, keepSlash: bool)
    ensures Encode([c], keepSlash) ==
            if IsUnreservedCharacter(c) || (keepSlash && c == '/' as int) then [c]
            else ['%' as int, HEX[c / 16] as int, HEX[c % 16] as int]
  {
    assert [c][1..] == [] && Encode([], keepSlash) == [];
    HexDigitMeans(c / 16);
    HexDigitMeans(c % 16);
  }

  lemma HexDigitMeans(n: nat)
    requires n < 16
    ensures HexDigit(n) == HEX[n] as int
  {
    assert HEX[0] == '0' && HEX[1] == '1' && HEX[2] == '2' && HEX[3] == '3' && HEX[4] == '4' && HEX[5] == '5'
           && HEX[6] == '6' && HEX[7] == '7' && HEX[8] == '8' && HEX[9] == '9' && HEX[10] == 'A' && HEX[11] == 'B'
           && HEX[12] == 'C' && HEX[13] == 'D' && HEX[14] == 'E' && HEX[15] == 'F';
  }

  /** Strings are encoded byte by byte. */
  lemma {:induction false} EncodesEachByte(a: Str, b: Str, keepSlash: bool)
    ensures Encode(a + b, keepSlash) == Encode(a, keepSlash) + Encode(b, keepSlash)
  {
    if a == [] {
      assert a + b == b;
    } else {
      EncodesEachByte(a[1..], b, keepSlash);
      assert (a + b)[1..] == a[1..] + b;
    }
  }

  /** `c` is a hexadecimal digit with value `v`. */
  ghost predicate IsHex(c: byte, v: nat) {
    || ('0' as int <= c <= '9' as int && v == c - '0' as int)
    || ('A' as int <= c <= 'F' as int && v == 10 + c - 'A' as int)
    || ('a' as int <= c <= 'f' as int && v == 10 + c - 'a' as int)
  }

  /** An escape, in either case, is decoded to its byte. */
  lemma DecodesEscape(h: byte, l: byte, high: nat, low: nat, rest: Str)
    requires IsHex(h, high) && IsHex(l, low)
    ensures high * 16 + low < 256 && DecodeBytes(['%' as int, h, l] + rest) == [high * 16 + low] + DecodeBytes(rest)
  {
    var text: Str := [37, h, l] + rest;
    assert text[3..] == rest && StartsEscape(text);
  }

  /** A percent sign that starts no escape, and every other byte, is kept. */
  lemma DecodesOther(text: Str)
    requires text != []
    requires text[0] == '%' as int && |text| >= 3 ==> (forall v: nat :: !IsHex(text[1], v)) || (forall v: nat :: !IsHex(text[2], v))
    ensures DecodeBytes(text) == [text[0]] + DecodeBytes(text[1..])
  {
    if |text| >= 3 && text[0] == 37 && HexValue(text[1]) >= 0 && HexValue(text[2]) >= 0 {
      assert IsHex(text[1], HexValue(text[1])) && IsHex(text[2], HexValue(text[2]));
    }
  }
}
