/** The canonical query string of a signed request. */
module CanonicalQuery {
  import opened ByteStrings
  import opened Sequences
  import opened Sorting
  import opened Splitting
  import Utf8
  import opened UriCoding

  const AMPERSAND: byte := 38
  const EQUALS: byte := 61

  // Parameters.

  datatype Pair = Pair(name: Str, value: Str)

  /** The order of `std::pair<std::string, std::string>`, not strict. */
  predicate NotAfter(a: Pair, b: Pair) {
    if a.name != b.name then Less(a.name, b.name) else !Less(b.value, a.value)
  }

  function Decoded(part: Str): Pair {
    var equal := Find(part, EQUALS);
    Pair(Decode(part[..equal]), if equal == |part| then Decode([]) else Decode(part[equal + 1..]))
  }

  function Encoded(p: Pair): Pair {
    Pair(Encode(p.name, false), Encode(p.value, false))
  }

  function NonEmpty(parts: seq<Str>): seq<Str> {
    if parts == [] then []
    else if parts[0] == [] then NonEmpty(parts[1..])
    else [parts[0]] + NonEmpty(parts[1..])
  }

  /** The parameters of a query, decoded, in the order given; empty parts are skipped. */
  function Parameters(query: Str): seq<Pair> {
    Map(Decoded, NonEmpty(Split(query, AMPERSAND)))
  }

  function Render(p: Pair): Str {
    p.name + [EQUALS] + p.value
  }

  function Printed(ps: seq<Pair>): Str {
    Join(Map(Render, ps), AMPERSAND)
  }

  function SortedPairs(query: Str): seq<Pair> {
    Sort(Map(Encoded, Parameters(query)), NotAfter)
  }

  function Canonical(query: Str): Str {
    Printed(SortedPairs(query))
  }

  // The code.

  method Recode(part: Str) returns (pair: Pair)
    ensures pair == Encoded(Decoded(part))
  {
    hide Encode, Decode;
    var equal := Find(part, EQUALS);
    var name := UriDecode(part[..equal]);
    var value := UriDecode(if equal == |part| then [] else part[equal + 1..]);
    var encodedName := UriEncode(name, false);
    var encodedValue := UriEncode(value, false);
    return Pair(encodedName, encodedValue);
  }

  method CollectPairs(parts: seq<Str>) returns (pairs: seq<Pair>)
    ensures pairs == Map(Encoded, Map(Decoded, NonEmpty(parts)))
  {
    hide Encoded, Decoded;
    pairs := [];
    var i := 0;
    while i < |parts|
      invariant 0 <= i <= |parts|
      invariant pairs + Map(Encoded, Map(Decoded, NonEmpty(parts[i..]))) == Map(Encoded, Map(Decoded, NonEmpty(parts)))
    {
      var part := parts[i];
      assert parts[i..][0] == part && parts[i..][1..] == parts[i + 1..];
      if part != [] {
        var pair := Recode(part);
        AppendAssociative(pairs, [pair], Map(Encoded, Map(Decoded, NonEmpty(parts[i + 1..]))));
        pairs := pairs + [pair];
      }
      i := i + 1;
    }
  }

  lemma {:induction false} JoinSnoc(parts: seq<Str>, sep: byte, last: Str)
    requires parts != []
    ensures Join(parts + [last], sep) == Join(parts, sep) + [sep] + last
  {
    assert (parts + [last])[1..] == parts[1..] + [last];
    if |parts| > 1 {
      JoinSnoc(parts[1..], sep, last);
    }
  }

  lemma PrintedSnoc(ps: seq<Pair>, p: Pair)
    ensures Printed(ps + [p]) == if ps == [] then Render(p) else Printed(ps) + [AMPERSAND] + Render(p)
    ensures ps != [] ==> Printed(ps) != []
  {
    MapAppend(Render, ps, [p]);
    assert Map(Render, [p]) == [Render(p)];
    if ps == [] {
      assert ps + [p] == [p];
    } else {
      JoinSnoc(Map(Render, ps), AMPERSAND, Render(p));
      assert Map(Render, ps)[0] == Render(ps[0]);
    }
  }

  method Print(pairs: seq<Pair>) returns (result: Str)
    ensures result == Printed(pairs)
  {
    hide Printed, Render;
    result := [];
    var i := 0;
    PrintedNone();
    while i < |pairs|
      invariant 0 <= i <= |pairs|
      invariant result == Printed(pairs[..i])
    {
      PrintedSnoc(pairs[..i], pairs[i]);
      assert pairs[..i + 1] == pairs[..i] + [pairs[i]];
      if result != [] {
        result := result + [AMPERSAND];
      }
      result := result + Render(pairs[i]);
      i := i + 1;
    }
    assert pairs[..i] == pairs;
  }

  method CanonicalQuery(query: Str) returns (result: Str)
    ensures result == Canonical(query)
  {
    var parts := SplitAt(query, AMPERSAND);
    var pairs := CollectPairs(parts);
    result := Print(Sort(pairs, NotAfter));
  }

  lemma PrintedNone()
    ensures Printed([]) == []
  {
  }

  // What the canonical form means.

  lemma NotAfterIsTotal()
    ensures TotalOrder(NotAfter)
  {
    forall a, b
      ensures NotAfter(a, b) || NotAfter(b, a)
      ensures NotAfter(a, b) && NotAfter(b, a) ==> a == b
    {
      LessTrichotomy(a.name, b.name);
      LessTrichotomy(a.value, b.value);
    }
    forall a, b, c | NotAfter(a, b) && NotAfter(b, c)
      ensures NotAfter(a, c)
    {
      NotAfterTransitive(a, b, c);
    }
  }

  lemma NotAfterTransitive(a: Pair, b: Pair, c: Pair)
    requires NotAfter(a, b) && NotAfter(b, c)
    ensures NotAfter(a, c)
  {
    LessTrichotomy(a.name, b.name);
    if Less(a.name, b.name) && Less(b.name, c.name) {
      LessTransitive(a.name, b.name, c.name);
      LessTrichotomy(a.name, c.name);
    }
    LessTrichotomy(a.value, b.value);
    LessTrichotomy(b.value, c.value);
    LessTrichotomy(a.value, c.value);
    if Less(a.value, b.value) && Less(b.value, c.value) {
      LessTransitive(a.value, b.value, c.value);
    }
  }

  /** Decodes an encoded pair, name and value apart. */
  function DecodedPair(e: Pair): Pair {
    Pair(Decode(e.name), Decode(e.value))
  }

  /** An encoded pair that decoding and encoding again leave alone. */
  ghost predicate Fixed(e: Pair) {
    Encoded(DecodedPair(e)) == e && SafeBytes(e.name) && SafeBytes(e.value)
  }

  lemma EncodedIsFixed(part: Str)
    ensures Fixed(Encoded(Decoded(part)))
    ensures DecodedPair(Encoded(Decoded(part))) == Decoded(part)
  {
    hide Encode, Decode, Find;
    var equal := Find(part, EQUALS);
    var value := if equal == |part| then [] else part[equal + 1..];
    FieldIsFixed(part[..equal]);
    FieldIsFixed(value);
  }

  lemma FieldIsFixed(text: Str)
    ensures Decode(Encode(Decode(text), false)) == Decode(text)
    ensures SafeBytes(Encode(Decode(text), false))
  {
    Utf8.RepairIsWellFormed(DecodeBytes(text));
    DecodeInvertsEncode(Decode(text), false);
    EncodedIsSafe(Decode(text));
  }

  ghost predicate AllFixed(es: seq<Pair>) {
    forall i | 0 <= i < |es| :: Fixed(es[i])
  }

  /** The sorted pairs of a query are fixed, sorted, and a rearrangement of the encoded parameters. */
  lemma SortedPairsAreFixed(query: Str)
    ensures AllFixed(SortedPairs(query))
    ensures multiset(SortedPairs(query)) == multiset(Map(Encoded, Parameters(query)))
    ensures Sorted(SortedPairs(query), NotAfter)
  {
    var es := Map(Encoded, Parameters(query));
    SortPermutes(es, NotAfter);
    NotAfterIsTotal();
    SortSorts(es, NotAfter);
    hide Fixed, Encoded, Decoded;
    forall i | 0 <= i < |SortedPairs(query)|
      ensures Fixed(SortedPairs(query)[i])
    {
      assert SortedPairs(query)[i] in multiset(es);
      var j :| 0 <= j < |es| && es[j] == SortedPairs(query)[i];
      EncodedIsFixed(NonEmpty(Split(query, AMPERSAND))[j]);
    }
  }

  lemma RenderedPart(e: Pair)
    requires Fixed(e)
    ensures Render(e) != [] && AMPERSAND !in Render(e)
    ensures Decoded(Render(e)) == DecodedPair(e)
  {
    hide Decode, Encode, Find;
    var part, n := Render(e), |e.name|;
    assert part[..n] == e.name && part[n] == EQUALS && part[n + 1..] == e.value;
    FindAt(part, EQUALS, n);
    forall i | 0 <= i < |part|
      ensures part[i] != AMPERSAND
    {
      assert i < n ==> part[i] == e.name[i];
      assert i > n ==> part[i] == e.value[i - n - 1];
    }
  }

  lemma {:induction false} NonEmptyKeeps(parts: seq<Str>)
    requires forall i | 0 <= i < |parts| :: parts[i] != []
    ensures NonEmpty(parts) == parts
  {
    if parts != [] {
      NonEmptyKeeps(parts[1..]);
    }
  }

  /** Reading a printed list of fixed pairs gives the list back. */
  lemma ParametersOfPrinted(es: seq<Pair>)
    requires AllFixed(es)
    ensures Parameters(Printed(es)) == Map(DecodedPair, es)
    ensures Map(Encoded, Parameters(Printed(es))) == es
  {
    hide Fixed, Decoded, DecodedPair, Encoded, Render, Find;
    var parts := Map(Render, es);
    forall i | 0 <= i < |es|
      ensures parts[i] != [] && AMPERSAND !in parts[i] && Decoded(parts[i]) == DecodedPair(es[i])
      ensures Encoded(DecodedPair(es[i])) == es[i]
    {
      RenderedPart(es[i]);
      FixedMeans(es[i]);
    }
    if es == [] {
      SplitNothing();
    } else {
      SplitInvertsJoin(parts, AMPERSAND);
      NonEmptyKeeps(parts);
    }
  }

  lemma FixedMeans(e: Pair)
    requires Fixed(e)
    ensures Encoded(DecodedPair(e)) == e
  {
  }

  lemma SplitNothing()
    ensures Split([], AMPERSAND) == [[]] && NonEmpty([[]]) == []
  {
  }

  lemma CanonicalIsIdempotent(query: Str)
    ensures Canonical(Canonical(query)) == Canonical(query)
  {
    hide Printed, Parameters, Encoded;
    SortedPairsAreFixed(query);
    ParametersOfPrinted(SortedPairs(query));
    NotAfterIsTotal();
    SortOfSorted(SortedPairs(query), NotAfter);
  }

  lemma {:induction false} ParametersRoundTrip(query: Str)
    ensures Map(DecodedPair, Map(Encoded, Parameters(query))) == Parameters(query)
  {
    hide Decoded, DecodedPair, Encoded;
    var parts := NonEmpty(Split(query, AMPERSAND));
    forall i | 0 <= i < |parts|
      ensures DecodedPair(Encoded(Decoded(parts[i]))) == Decoded(parts[i])
    {
      EncodedIsFixed(parts[i]);
    }
  }

  /** Two queries have the same canonical form exactly when they carry the same decoded parameters, in any order. */
  lemma CanonicalIffSameParameters(a: Str, b: Str)
    ensures Canonical(a) == Canonical(b) <==> multiset(Parameters(a)) == multiset(Parameters(b))
  {
    if multiset(Parameters(a)) == multiset(Parameters(b)) {
      MapPermutes(Encoded, Parameters(a), Parameters(b));
      NotAfterIsTotal();
      SortIgnoresOrder(Map(Encoded, Parameters(a)), Map(Encoded, Parameters(b)), NotAfter);
    }
    if Canonical(a) == Canonical(b) {
      SameParameters(a, b);
    }
  }

  lemma SameParameters(a: Str, b: Str)
    requires Canonical(a) == Canonical(b)
    ensures multiset(Parameters(a)) == multiset(Parameters(b))
  {
    hide Printed, Parameters, Encoded, DecodedPair, Map;
    SortedPairsAreFixed(a);
    SortedPairsAreFixed(b);
    ParametersOfPrinted(SortedPairs(a));
    ParametersOfPrinted(SortedPairs(b));
    MapPermutes(DecodedPair, Map(Encoded, Parameters(a)), Map(Encoded, Parameters(b)));
    ParametersRoundTrip(a);
    ParametersRoundTrip(b);
  }

  lemma {:induction false} NonEmptyMultiset(parts: seq<Str>)
    ensures multiset(NonEmpty(parts)) == multiset(parts)[[] := 0]
  {
    if parts != [] {
      NonEmptyMultiset(parts[1..]);
      assert parts == [parts[0]] + parts[1..];
    }
  }

  /** Reordering the parts between the ampersands does not change the canonical form. */
  lemma PartOrderDoesNotMatter(a: Str, b: Str)
    requires multiset(Split(a, AMPERSAND)) == multiset(Split(b, AMPERSAND))
    ensures Canonical(a) == Canonical(b)
  {
    NonEmptyMultiset(Split(a, AMPERSAND));
    NonEmptyMultiset(Split(b, AMPERSAND));
    MapPermutes(Decoded, NonEmpty(Split(a, AMPERSAND)), NonEmpty(Split(b, AMPERSAND)));
    CanonicalIffSameParameters(a, b);
  }

  /** `n` + "=" + `v` is the parameter with those decoded, and text without "=" one with an empty value. */
  lemma PartMeans(name: Str, value: Str)
    requires EQUALS !in name
    ensures Decoded(name + [EQUALS] + value) == Pair(Decode(name), Decode(value))
    ensures Decoded(name) == Pair(Decode(name), [])
  {
    hide Decode;
    var part := name + [EQUALS] + value;
    assert part[..|name|] == name && part[|name| + 1..] == value && part[|name|] == EQUALS;
    FindAt(part, EQUALS, |name|);
    assert name[..|name|] == name;
    FindAt(name, EQUALS, |name|);
    DecodeNothing();
  }

  lemma DecodeNothing()
    ensures Decode([]) == []
  {
  }

  /** Empty parts are ignored, between, before and after others. */
  lemma EmptyPartsAreIgnored(a: Str, b: Str)
    ensures Parameters(a + [AMPERSAND] + ([AMPERSAND] + b)) == Parameters(a + [AMPERSAND] + b)
    ensures Parameters([AMPERSAND] + b) == Parameters(b)
    ensures Parameters(a + [AMPERSAND]) == Parameters(a)
  {
    hide Split, NonEmpty;
    LeadingAmpersand(b);
    PartsAppend(a, [AMPERSAND] + b);
    PartsAppend(a, b);
    PartsAppend(a, []);
    SplitNothing();
    assert a + [AMPERSAND] + [] == a + [AMPERSAND];
  }

  lemma LeadingAmpersand(b: Str)
    ensures NonEmpty(Split([AMPERSAND] + b, AMPERSAND)) == NonEmpty(Split(b, AMPERSAND))
  {
    SplitHead([], b, AMPERSAND);
    assert [] + [AMPERSAND] + b == [AMPERSAND] + b;
    assert ([[]] + Split(b, AMPERSAND))[1..] == Split(b, AMPERSAND);
  }

  lemma PartsAppend(a: Str, b: Str)
    ensures NonEmpty(Split(a + [AMPERSAND] + b, AMPERSAND)) == NonEmpty(Split(a, AMPERSAND)) + NonEmpty(Split(b, AMPERSAND))
  {
    hide Split, NonEmpty;
    SplitAppends(a, b);
    NonEmptyAppends(Split(a, AMPERSAND), Split(b, AMPERSAND));
  }

  lemma {:induction false} SplitAppends(a: Str, b: Str)
    ensures Split(a + [AMPERSAND] + b, AMPERSAND) == Split(a, AMPERSAND) + Split(b, AMPERSAND)
    decreases |a|
  {
    hide Split, Find;
    var end := Find(a, AMPERSAND);
    if end == |a| {
      assert a[..end] == a;
      SplitHead(a, b, AMPERSAND);
      SplitOne(a, AMPERSAND);
    } else {
      var head, tail := a[..end], a[end + 1..];
      SplitAppends(tail, b);
      SplitHead(head, tail + [AMPERSAND] + b, AMPERSAND);
      SplitHead(head, tail, AMPERSAND);
      assert a == head + [AMPERSAND] + tail;
      assert a + [AMPERSAND] + b == head + [AMPERSAND] + (tail + [AMPERSAND] + b);
      AppendAssociative([head], Split(tail, AMPERSAND), Split(b, AMPERSAND));
    }
  }

  lemma {:induction false} NonEmptyAppends(a: seq<Str>, b: seq<Str>)
    ensures NonEmpty(a + b) == NonEmpty(a) + NonEmpty(b)
  {
    if a == [] {
      assert a + b == b;
    } else {
      NonEmptyAppends(a[1..], b);
      assert (a + b)[1..] == a[1..] + b && (a + b)[0] == a[0];
      AppendAssociative(if a[0] == [] then [] else [a[0]], NonEmpty(a[1..]), NonEmpty(b));
    }
  }

  /** A canonical query lists its encoded parameters by name and then by value, in the order of bytes. */
  lemma CanonicalAscends(query: Str, i: nat, j: nat)
    requires i < j < |SortedPairs(query)|
    ensures Split(Canonical(query), AMPERSAND) == Map(Render, SortedPairs(query))
    ensures var a, b := SortedPairs(query)[i], SortedPairs(query)[j];
            Less(a.name, b.name) || (a.name == b.name && (Less(a.value, b.value) || a.value == b.value))
  {
    var es := SortedPairs(query);
    SortedPairsAreFixed(query);
    LessTrichotomy(es[i].value, es[j].value);
    hide Render, Fixed, NotAfter, Sort;
    forall k | 0 <= k < |es|
      ensures AMPERSAND !in Map(Render, es)[k]
    {
      RenderedPart(es[k]);
    }
    SplitInvertsJoin(Map(Render, es), AMPERSAND);
  }
}
