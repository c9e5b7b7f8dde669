/** Splitting byte strings at a separator, and joining them again. */
module Splitting {
  import opened ByteStrings
  import opened Sequences

  /** The position of the first `sep`, or the length of the text. */
  function Find(text: Str, sep: byte): (r: nat)
    ensures r <= |text|
    ensures r < |text| ==> text[r] == sep
    ensures sep !in text[..r]
  {
    if text == [] || text[0] == sep then 0
    else
      var r := 1 + Find(text[1..], sep);
      assert text[..r] == [text[0]] + text[1..][..r - 1];
      r
  }

  function Split(text: Str, sep: byte): (parts: seq<Str>)
    ensures parts != []
  {
    var end := Find(text, sep);
    if end == |text| then [text] else [text[..end]] + Split(text[end + 1..], sep)
  }

  function Join(parts: seq<Str>, sep: byte): Str {
    if parts == [] then []
    else if |parts| == 1 then parts[0]
    else parts[0] + [sep] + Join(parts[1..], sep)
  }

  lemma FindAt(text: Str, sep: byte, i: nat)
    requires i <= |text| && sep !in text[..i] && (i < |text| ==> text[i] == sep)
    ensures Find(text, sep) == i
  {
    var r := Find(text, sep);
    assert forall k | 0 <= k < i :: text[..i][k] == text[k];
    assert forall k | 0 <= k < r :: text[..r][k] == text[k];
  }

  lemma SplitHead(first: Str, rest: Str, sep: byte)
    requires sep !in first
    ensures Split(first + [sep] + rest, sep) == [first] + Split(rest, sep)
  {
    hide Find;
    var text := first + [sep] + rest;
    assert text[..|first|] == first && text[|first| + 1..] == rest;
    FindAt(text, sep, |first|);
  }

  lemma SplitOne(text: Str, sep: byte)
    requires sep !in text
    ensures Split(text, sep) == [text]
  {
    hide Find;
    assert text[..|text|] == text;
    FindAt(text, sep, |text|);
  }

  lemma {:induction false} SplitInvertsJoin(parts: seq<Str>, sep: byte)
    requires parts != [] && forall i | 0 <= i < |parts| :: sep !in parts[i]
    ensures Split(Join(parts, sep), sep) == parts
  {
    hide Split;
    if |parts| == 1 {
      SplitOne(parts[0], sep);
    } else {
      SplitHead(parts[0], Join(parts[1..], sep), sep);
      SplitInvertsJoin(parts[1..], sep);
    }
  }

  /** Splitting loses nothing and leaves no separator. */
  lemma {:induction false} JoinInvertsSplit(text: Str, sep: byte)
    ensures Join(Split(text, sep), sep) == text
    ensures forall i | 0 <= i < |Split(text, sep)| :: sep !in Split(text, sep)[i]
    decreases |text|
  {
    hide Find;
    var end := Find(text, sep);
    if end < |text| {
      var rest := text[end + 1..];
      JoinInvertsSplit(rest, sep);
      assert Split(text, sep)[1..] == Split(rest, sep);
      assert text == text[..end] + [sep] + rest;
    } else {
      assert text[..end] == text;
    }
  }

  lemma SplitFrom(text: Str, sep: byte, begin: nat)
    requires begin <= |text|
    ensures var end := begin + Find(text[begin..], sep);
            Split(text[begin..], sep) ==
            if end == |text| then [text[begin..end]] else [text[begin..end]] + Split(text[end + 1..], sep)
  {
    hide Find;
    var rest := text[begin..];
    var r := Find(rest, sep);
    assert rest[..r] == text[begin..begin + r];
    if r == |rest| {
      assert Split(rest, sep) == [rest] && rest[..r] == rest;
    } else {
      assert rest[r + 1..] == text[begin + r + 1..];
      assert Split(rest, sep) == [rest[..r]] + Split(rest[r + 1..], sep);
    }
  }

  method SplitAt(text: Str, sep: byte) returns (parts: seq<Str>)
    ensures parts == Split(text, sep)
  {
    hide Split;
    parts := [];
    var begin := 0;
    assert text[0..] == text;
    while true
      invariant 0 <= begin <= |text|
      invariant parts + Split(text[begin..], sep) == Split(text, sep)
      decreases |text| - begin
    {
      SplitFrom(text, sep, begin);
      var end := begin + Find(text[begin..], sep);
      if end == |text| {
        return parts + [text[begin..end]];
      }
      AppendAssociative(parts, [text[begin..end]], Split(text[end + 1..], sep));
      parts := parts + [text[begin..end]];
      begin := end + 1;
    }
  }
}
