/** ListObjectsV2 over the agent's sorted object index: one page per request, chained by continuation tokens. */
module Listing {
  import opened Wrappers
  import opened Sequences
  import opened ByteStrings
  import opened ListingRows

  datatype IndexedObject = IndexedObject(key: Str, size: nat)

  /** What `rebuild_object_index` leaves behind: distinct non-empty keys in ascending order. */
  ghost predicate ValidIndex(index: seq<IndexedObject>) {
    && (forall i, j | 0 <= i < j < |index| :: Less(index[i].key, index[j].key))
    && (forall i | 0 <= i < |index| :: index[i].key != [])
  }

  /** `std::string::find`: the first occurrence of a non-empty pattern. */
  function Find(text: Str, pattern: Str): (r: Option<nat>)
    requires pattern != []
    ensures r.Some? ==> r.value + |pattern| <= |text|
  {
    if pattern <= text then Some(0)
    else if text == [] then None
    else
      var rest := Find(text[1..], pattern);
      if rest.Some? then Some(rest.value + 1) else None
  }

  /** `Find` does return the first occurrence. */
  lemma {:induction false} FindIsFirst(text: Str, pattern: Str)
    requires pattern != []
    ensures var r := Find(text, pattern);
            && (r.Some? ==> pattern <= text[r.value..])
            && (forall k | 0 <= k <= |text| && (r.Some? ==> k < r.value) :: !(pattern <= text[k..]))
  {
    assert text[0..] == text;
    if !(pattern <= text) && text != [] {
      FindIsFirst(text[1..], pattern);
      assert forall k | 1 <= k <= |text| :: text[k..] == text[1..][k - 1..];
    }
  }

  /** `std::lower_bound` on the keys: the first entry not below `key`. */
  function LowerBound(index: seq<IndexedObject>, key: Str): (i: nat)
    ensures i <= |index|
    ensures forall j | 0 <= j < i :: Less(index[j].key, key)
    ensures i < |index| ==> !Less(index[i].key, key)
  {
    if index == [] || !Less(index[0].key, key) then 0 else 1 + LowerBound(index[1..], key)
  }

  /** `std::upper_bound` on the keys: the first entry above `key`. */
  function UpperBound(index: seq<IndexedObject>, key: Str): (i: nat)
    ensures i <= |index|
    ensures forall j | 0 <= j < i :: !Less(key, index[j].key)
    ensures i < |index| ==> Less(key, index[i].key)
  {
    if index == [] || Less(key, index[0].key) then 0 else 1 + UpperBound(index[1..], key)
  }

  /** The first position at or after `i` whose key does not start with `p`. */
  function SkipPrefix(index: seq<IndexedObject>, i: nat, p: Str): (r: nat)
    requires i <= |index|
    ensures i <= r <= |index|
    ensures forall j | i <= j < r :: p <= index[j].key
    ensures r < |index| ==> !(p <= index[r].key)
    decreases |index| - i
  {
    if i < |index| && p <= index[i].key then SkipPrefix(index, i + 1, p) else i
  }

  /** How one object shows up in a listing: itself, or the common prefix it is rolled up into. */
  function ItemOf(entry: IndexedObject, prefix: Str, delimiter: Str): (item: ListItem)
    requires prefix <= entry.key
    ensures !item.commonPrefix ==> item == ListItem(entry.key, entry.size, false)
  {
    if delimiter == [] then ListItem(entry.key, entry.size, false)
    else
      match Find(entry.key[|prefix|..], delimiter)
      case None => ListItem(entry.key, entry.size, false)
      case Some(at) => ListItem(prefix + entry.key[|prefix|..][..at + |delimiter|], 0, true)
  }

  /** The delimiter occurs in the key at position `at`. */
  predicate DelimiterAt(key: Str, at: nat, delimiter: Str) {
    at <= |key| && delimiter <= key[at..]
  }

  /**
    * A key is rolled up exactly when a delimiter follows the requested prefix, into the part of the key up to the end of
    * the first one.
    */
  lemma ItemShape(entry: IndexedObject, prefix: Str, delimiter: Str)
    requires prefix <= entry.key
    ensures prefix <= ItemOf(entry, prefix, delimiter).value <= entry.key
    ensures var item := ItemOf(entry, prefix, delimiter);
            && (item.commonPrefix ==>
                  && delimiter != [] && EndsWith(item.value, delimiter) && item.size == 0
                  && |prefix| <= |item.value| - |delimiter|
                  && forall at | |prefix| <= at < |item.value| - |delimiter| :: !DelimiterAt(entry.key, at, delimiter))
            && (!item.commonPrefix && delimiter != [] ==> forall at: nat | |prefix| <= at :: !DelimiterAt(entry.key, at, delimiter))
  {
    var item, rest := ItemOf(entry, prefix, delimiter), entry.key[|prefix|..];
    assert entry.key == prefix + rest;
    if delimiter != [] {
      FindIsFirst(rest, delimiter);
      hide Find, EndsWith;
      forall at: nat | |prefix| <= at
        ensures DelimiterAt(entry.key, at, delimiter) <==> DelimiterAt(rest, at - |prefix|, delimiter)
      {
        assert at <= |entry.key| ==> entry.key[at..] == rest[at - |prefix|..];
      }
      if item.commonPrefix {
        RolledUp(prefix, rest, Find(rest, delimiter).value, delimiter);
      }
    }
  }

  lemma RolledUp(prefix: Str, rest: Str, at: nat, delimiter: Str)
    requires at <= |rest| && delimiter <= rest[at..]
    ensures prefix <= prefix + rest[..at + |delimiter|] <= prefix + rest
    ensures EndsWith(prefix + rest[..at + |delimiter|], delimiter)
  {
    var end := at + |delimiter|;
    assert rest == rest[..end] + rest[end..];
    assert prefix + rest == (prefix + rest[..end]) + rest[end..];
    assert rest[..end] == rest[..at] + delimiter;
    assert prefix + rest[..end] == (prefix + rest[..at]) + delimiter;
  }

  /** How an index entry shows up in the listing of `prefix`. */
  function Classify(entry: IndexedObject, prefix: Str, delimiter: Str): (row: Row) {
    if prefix <= entry.key then Listed(ItemOf(entry, prefix, delimiter)) else Outside
  }

  function Rows(index: seq<IndexedObject>, prefix: Str, delimiter: Str): (rows: seq<Row>)
    ensures |rows| == |index|
    ensures forall i | 0 <= i < |index| :: rows[i] == Classify(index[i], prefix, delimiter)
  {
    seq(|index|, i requires 0 <= i < |index| => Classify(index[i], prefix, delimiter))
  }

  /** The position a request starts scanning from. */
  function Start(index: seq<IndexedObject>, prefix: Str, token: Str, delimiter: Str): (first: nat)
    ensures first <= |index|
  {
    var first := LowerBound(index, prefix);
    if token == [] || first == |index| then first
    else
      var tokenPos :=
        if delimiter != [] && EndsWith(token, delimiter)
        then SkipPrefix(index, LowerBound(index, token), token)
        else UpperBound(index, token);
      if tokenPos > first then tokenPos else first
  }

  /** The iterator set-up of `handle_list`. */
  method FirstPosition(index: seq<IndexedObject>, prefix: Str, token: Str, delimiter: Str) returns (first: nat)
    ensures first == Start(index, prefix, token, delimiter)
  {
    first := LowerBound(index, prefix);
    if token != [] && first != |index| {
      var tokenPos := UpperBound(index, token);
      if delimiter != [] && EndsWith(token, delimiter) {
        tokenPos := LowerBound(index, token);
        while tokenPos != |index| && token <= index[tokenPos].key
          invariant tokenPos <= |index|
          invariant SkipPrefix(index, tokenPos, token) == SkipPrefix(index, LowerBound(index, token), token)
          decreases |index| - tokenPos
        {
          tokenPos := tokenPos + 1;
        }
      }
      if tokenPos > first {
        first := tokenPos;
      }
    }
  }

  /** The page-filling loop of `handle_list`. */
  method ScanPage(index: seq<IndexedObject>, prefix: Str, delimiter: Str, first: nat, maxKeys: nat)
    returns (page: seq<ListItem>, scan: nat)
    requires first <= |index|
    ensures Scanned(page, scan) == Scan(Rows(index, prefix, delimiter), first, {}, maxKeys)
  {
    page, scan := [], first;
    var emitted, room := {}, maxKeys;
    ghost var rows := Rows(index, prefix, delimiter);
    ghost var whole := Scan(rows, first, {}, maxKeys);
    while scan != |index| && room > 0
      invariant scan <= |index| && room == maxKeys - |page|
      invariant whole.stop == Scan(rows, scan, emitted, room).stop
      invariant whole.page == page + Scan(rows, scan, emitted, room).page
      decreases |index| - scan
    {
      var row := Classify(index[scan], prefix, delimiter);
      if row.Outside? {
        break;
      }
      if !row.item.commonPrefix || row.item.value !in emitted {
        ScanListsItem(rows, scan, emitted, room, page);
        emitted := Emit(emitted, row.item);
        page, room := page + [row.item], room - 1;
      }
      scan := scan + 1;
    }
  }

  datatype Response = Response(page: seq<ListItem>, truncated: bool, next: Option<Str>)

  /** What one request answers. */
  function Request(index: seq<IndexedObject>, prefix: Str, maxKeys: nat, token: Str, delimiter: Str): (r: Response) {
    var rows := Rows(index, prefix, delimiter);
    var scanned := Scan(rows, Start(index, prefix, token, delimiter), {}, maxKeys);
    Response(scanned.page, More(rows, scanned.stop), if HasMore(rows, scanned) then Some(Last(scanned.page).value) else None)
  }

  /** One ListObjectsV2 request: the page, whether more keys follow, and the token for them. */
  method HandleList(index: seq<IndexedObject>, prefix: Str, maxKeys: nat, token: Str, delimiter: Str)
    returns (page: seq<ListItem>, truncated: bool, next: Option<Str>)
    ensures Response(page, truncated, next) == Request(index, prefix, maxKeys, token, delimiter)
    ensures ValidIndex(index) ==> Answers(index, prefix, maxKeys, token, delimiter, page, truncated)
    ensures next == if truncated && page != [] then Some(Last(page).value) else None
  {
    var first := FirstPosition(index, prefix, token, delimiter);
    var scan;
    page, scan := ScanPage(index, prefix, delimiter, first, maxKeys);
    truncated := scan != |index| && prefix <= index[scan].key;
    next := if truncated && page != [] then Some(page[|page| - 1].value) else None;
    if ValidIndex(index) {
      RequestAnswers(index, prefix, maxKeys, token, delimiter);
    }
  }

  /** `continuation_token_valid`: accepts exactly the keys under the prefix and the delimited prefixes of keys. */
  method ContinuationTokenValid(index: seq<IndexedObject>, prefix: Str, token: Str, delimiter: Str) returns (valid: bool)
    requires ValidIndex(index)
    ensures valid <==> AcceptsToken(index, prefix, token, delimiter)
  {
    if token == [] || !(prefix <= token) {
      return false;
    }
    var exact := LowerBound(index, token);
    forall j | 0 <= j < |index|
      ensures index[j].key == token ==> j == exact
    {
      LessTrichotomy(index[j].key, token);
      if exact < |index| {
        LessTrichotomy(index[exact].key, token);
      }
    }
    if exact != |index| && index[exact].key == token {
      return true;
    }
    if delimiter != [] && EndsWith(token, delimiter) {
      var i := 0;
      while i < |index|
        invariant 0 <= i <= |index| && forall j | 0 <= j < i :: !(token <= index[j].key)
      {
        if token <= index[i].key {
          return true;
        }
        i := i + 1;
      }
    }
    return false;
  }

  // ---------------------------------------------------------------------------------------------
  // The listing a client should see, and the pages it does see
  // ---------------------------------------------------------------------------------------------

  /** `items` lists every object under `prefix` once, rolled up at the delimiter, in ascending order. */
  ghost predicate IsListing(items: seq<ListItem>, index: seq<IndexedObject>, prefix: Str, delimiter: Str) {
    && (forall a, b | 0 <= a < b < |items| :: Less(items[a].value, items[b].value))
    && (forall item :: item in items <==> IsItem(item, index, prefix, delimiter))
  }

  /** Some object shows up as `item`. */
  ghost predicate IsItem(item: ListItem, index: seq<IndexedObject>, prefix: Str, delimiter: Str) {
    exists j | 0 <= j < |index| :: prefix <= index[j].key && item == ItemOf(index[j], prefix, delimiter)
  }

  /** The keys a request with `token` is still to list: above the token, and not under one that ends with the delimiter. */
  predicate Beyond(key: Str, token: Str, delimiter: Str) {
    token == [] || (Less(token, key) && !(delimiter != [] && EndsWith(token, delimiter) && token <= key))
  }

  /** Some object beyond the token shows up as `item`. */
  ghost predicate IsItemAfter(item: ListItem, index: seq<IndexedObject>, prefix: Str, token: Str, delimiter: Str) {
    exists j | 0 <= j < |index| ::
      prefix <= index[j].key && Beyond(index[j].key, token, delimiter) && item == ItemOf(index[j], prefix, delimiter)
  }

  /** `items` lists every object under `prefix` beyond the token once, rolled up at the delimiter, in ascending order. */
  ghost predicate IsListingAfter(items: seq<ListItem>, index: seq<IndexedObject>, prefix: Str, token: Str, delimiter: Str) {
    && (forall a, b | 0 <= a < b < |items| :: Less(items[a].value, items[b].value))
    && (forall item :: item in items <==> IsItemAfter(item, index, prefix, token, delimiter))
  }

  /** A key beyond the token that shows up as `item` is followed by another one under the prefix. */
  ghost predicate KeysFollow(index: seq<IndexedObject>, prefix: Str, token: Str, delimiter: Str, item: ListItem) {
    exists j, k | 0 <= j < k < |index| ::
      && prefix <= index[j].key && Beyond(index[j].key, token, delimiter) && item == ItemOf(index[j], prefix, delimiter)
      && prefix <= index[k].key
  }

  /** The page is the first `maxKeys` items beyond the token, and is truncated exactly when it is full and keys follow. */
  ghost predicate Answers(index: seq<IndexedObject>, prefix: Str, maxKeys: nat, token: Str, delimiter: Str,
                          page: seq<ListItem>, truncated: bool)
  {
    exists items :: IsListingAfter(items, index, prefix, token, delimiter)
                    && IsFirstPage(items, index, prefix, maxKeys, token, delimiter, page, truncated)
  }

  ghost predicate IsFirstPage(items: seq<ListItem>, index: seq<IndexedObject>, prefix: Str, maxKeys: nat, token: Str,
                              delimiter: Str, page: seq<ListItem>, truncated: bool)
  {
    && page == (if |items| <= maxKeys then items else items[..maxKeys])
    && (truncated <==> if maxKeys == 0 then items != []
                       else |page| == maxKeys && KeysFollow(index, prefix, token, delimiter, page[maxKeys - 1]))
  }

  /** A token is a key under the prefix, or a prefix of one that ends with the delimiter. */
  ghost predicate AcceptsToken(index: seq<IndexedObject>, prefix: Str, token: Str, delimiter: Str) {
    && token != [] && prefix <= token
    && exists i | 0 <= i < |index| ::
         index[i].key == token || (delimiter != [] && EndsWith(token, delimiter) && token <= index[i].key)
  }

  /** All pages a client collects by following `NextContinuationToken` from a request with `token`. */
  ghost function Follow(index: seq<IndexedObject>, prefix: Str, maxKeys: nat, token: Str, delimiter: Str)
    : (all: seq<ListItem>)
    requires ValidIndex(index) && maxKeys >= 1
    decreases |index| - Start(index, prefix, token, delimiter)
  {
    var r := Request(index, prefix, maxKeys, token, delimiter);
    if r.next.None? then r.page
    else
      NextStartsLater(index, prefix, maxKeys, token, delimiter);
      r.page + Follow(index, prefix, maxKeys, r.next.value, delimiter)
  }

  lemma NextStartsLater(index: seq<IndexedObject>, prefix: Str, maxKeys: nat, token: Str, delimiter: Str)
    requires ValidIndex(index) && Request(index, prefix, maxKeys, token, delimiter).next.Some?
    ensures Start(index, prefix, token, delimiter)
          < Start(index, prefix, Request(index, prefix, maxKeys, token, delimiter).next.value, delimiter)
  {
    var rows, first := Rows(index, prefix, delimiter), Start(index, prefix, token, delimiter);
    RowsGrouped(index, prefix, delimiter);
    TokenIsLastEntry(rows, first, maxKeys);
    FollowingRequest(index, prefix, delimiter, first, Scan(rows, first, {}, maxKeys));
  }

  /** A plain key that looks like a common prefix and would swallow the keys it starts. */
  ghost predicate Shadows(index: seq<IndexedObject>, prefix: Str, delimiter: Str, i: nat)
    requires i < |index|
  {
    && delimiter != []
    && prefix <= index[i].key
    && Find(index[i].key[|prefix|..], delimiter).None?
    && EndsWith(index[i].key, delimiter)
    && exists j | i < j < |index| :: index[i].key <= index[j].key
  }

  ghost predicate NoShadow(index: seq<IndexedObject>, prefix: Str, delimiter: Str) {
    forall i | 0 <= i < |index| :: !Shadows(index, prefix, delimiter, i)
  }

  lemma {:induction false} SkipPrefixFrom(index: seq<IndexedObject>, l: nat, i: nat, p: Str)
    requires l <= i <= |index|
    requires forall j | l <= j < i :: p <= index[j].key
    ensures SkipPrefix(index, l, p) == SkipPrefix(index, i, p)
    decreases i - l
  {
    if l < i {
      SkipPrefixFrom(index, l + 1, i, p);
    }
  }

  /** Keys between two positions of a sorted index that share a prefix share it too. */
  lemma GroupContiguous(index: seq<IndexedObject>, p: Str, i: nat, j: nat, k: nat)
    requires ValidIndex(index)
    requires i <= j <= k < |index|
    requires p <= index[i].key && p <= index[k].key
    ensures p <= index[j].key
  {
    LessTrichotomy(index[i].key, index[j].key);
    LessTrichotomy(index[j].key, index[k].key);
    PrefixConvex(p, index[i].key, index[j].key, index[k].key);
  }

  /** The binary search for a string finds the first key that starts with it. */
  lemma LowerBoundOfPrefix(index: seq<IndexedObject>, p: Str, s: nat)
    requires ValidIndex(index)
    requires s < |index| && p <= index[s].key
    ensures LowerBound(index, p) <= s
    ensures forall j | LowerBound(index, p) <= j <= s :: p <= index[j].key
  {
    var l := LowerBound(index, p);
    PrefixNotGreater(p, index[s].key);
    if l < s {
      LessTrichotomy(index[l].key, index[s].key);
      PrefixConvex(p, p, index[l].key, index[s].key);
      forall j | l <= j <= s ensures p <= index[j].key {
        GroupContiguous(index, p, l, j, s);
      }
    }
  }

  /** The first occurrence only depends on the text up to its end. */
  lemma {:induction false} FindStable(a: Str, b: Str, pattern: Str)
    requires pattern != []
    requires Find(a, pattern).Some?
    requires a[..Find(a, pattern).value + |pattern|] <= b
    ensures Find(b, pattern) == Find(a, pattern)
  {
    var end := Find(a, pattern).value + |pattern|;
    assert a[..end][..|pattern|] == a[..|pattern|] == b[..|pattern|];
    if !(pattern <= a) {
      assert a[..end][1..] == a[1..][..end - 1] == b[1..][..end - 1];
      FindStable(a[1..], b[1..], pattern);
    }
  }

  /** Keys that start with a common prefix are all rolled up into it. */
  lemma SameGroup(a: IndexedObject, b: IndexedObject, prefix: Str, delimiter: Str)
    requires prefix <= a.key && prefix <= b.key
    requires ItemOf(a, prefix, delimiter).commonPrefix
    requires ItemOf(a, prefix, delimiter).value <= b.key
    ensures ItemOf(b, prefix, delimiter) == ItemOf(a, prefix, delimiter)
  {
    var restA, restB := a.key[|prefix|..], b.key[|prefix|..];
    var end := Find(restA, delimiter).value + |delimiter|;
    var value := ItemOf(a, prefix, delimiter).value;
    assert value == prefix + restA[..end];
    assert value[|prefix|..] == restA[..end];
    assert b.key[..|value|] == value;
    assert restB[..end] == b.key[..|value|][|prefix|..];
    FindStable(restA, restB, delimiter);
  }

  lemma RowsGrouped(index: seq<IndexedObject>, prefix: Str, delimiter: Str)
    requires ValidIndex(index)
    ensures Grouped(Rows(index, prefix, delimiter))
  {
    var rows := Rows(index, prefix, delimiter);
    forall i, j, k | 0 <= i <= j <= k < |rows| && Common(rows, i) && rows[i] == rows[k]
      ensures rows[j] == rows[i]
    {
      SameRow(index, prefix, delimiter, i, j, k);
    }
  }

  lemma SameRow(index: seq<IndexedObject>, prefix: Str, delimiter: Str, i: nat, j: nat, k: nat)
    requires ValidIndex(index) && i <= j <= k < |index|
    requires prefix <= index[i].key && ItemOf(index[i], prefix, delimiter).commonPrefix
    requires Classify(index[k], prefix, delimiter) == Classify(index[i], prefix, delimiter)
    ensures Classify(index[j], prefix, delimiter) == Classify(index[i], prefix, delimiter)
  {
    ItemShape(index[i], prefix, delimiter);
    ItemShape(index[k], prefix, delimiter);
    GroupContiguous(index, ItemOf(index[i], prefix, delimiter).value, i, j, k);
    SameGroup(index[i], index[j], prefix, delimiter);
  }

  /** The group of a common prefix is the run of keys that start with it. */
  lemma {:induction false} GroupIsPrefixRun(index: seq<IndexedObject>, prefix: Str, delimiter: Str, s: nat, i: nat)
    requires s < i <= |index| && prefix <= index[s].key
    requires ItemOf(index[s], prefix, delimiter).commonPrefix
    ensures SkipRow(Rows(index, prefix, delimiter), i, Classify(index[s], prefix, delimiter))
         == SkipPrefix(index, i, ItemOf(index[s], prefix, delimiter).value)
    decreases |index| - i
  {
    ItemShape(index[s], prefix, delimiter);
    if i < |index| {
      var value := ItemOf(index[s], prefix, delimiter).value;
      if value <= index[i].key {
        SameGroup(index[s], index[i], prefix, delimiter);
        GroupIsPrefixRun(index, prefix, delimiter, s, i + 1);
      } else if prefix <= index[i].key {
        ItemShape(index[i], prefix, delimiter);
      }
    }
  }

  /** The next request starts past the whole group of keys that start with a delimited token. */
  lemma StartAfterGroup(index: seq<IndexedObject>, prefix: Str, token: Str, delimiter: Str, s: nat)
    requires ValidIndex(index)
    requires s < |index| && prefix <= token <= index[s].key && token != []
    requires delimiter != [] && EndsWith(token, delimiter)
    ensures Start(index, prefix, token, delimiter) == SkipPrefix(index, s + 1, token)
  {
    LowerBoundOfPrefix(index, prefix, s);
    LowerBoundOfPrefix(index, token, s);
    SkipPrefixFrom(index, LowerBound(index, token), s + 1, token);
  }

  /** The next request starts right after a token that is a key and does not look like a common prefix. */
  lemma StartAfterKey(index: seq<IndexedObject>, prefix: Str, delimiter: Str, s: nat)
    requires ValidIndex(index)
    requires s < |index| && prefix <= index[s].key
    requires delimiter == [] || !EndsWith(index[s].key, delimiter)
    ensures Start(index, prefix, index[s].key, delimiter) == s + 1
  {
    var token := index[s].key;
    LowerBoundOfPrefix(index, prefix, s);
    LessTrichotomy(token, token);
    var u := UpperBound(index, token);
    if u < s {
      LessTrichotomy(index[u].key, token);
    }
    assert s + 1 < |index| ==> Less(index[s].key, index[s + 1].key);
  }

  /** The request after an entry starts later, and unless that key shadows others exactly at the next item. */
  lemma NextRequest(index: seq<IndexedObject>, prefix: Str, delimiter: Str, s: nat)
    requires ValidIndex(index)
    requires s < |index| && prefix <= index[s].key
    ensures s < Start(index, prefix, ItemOf(index[s], prefix, delimiter).value, delimiter)
    ensures !Shadows(index, prefix, delimiter, s) ==>
              Start(index, prefix, ItemOf(index[s], prefix, delimiter).value, delimiter)
              == Next(Rows(index, prefix, delimiter), s)
  {
    ItemShape(index[s], prefix, delimiter);
    var item := ItemOf(index[s], prefix, delimiter);
    if delimiter != [] && EndsWith(item.value, delimiter) {
      StartAfterGroup(index, prefix, item.value, delimiter, s);
      if item.commonPrefix {
        GroupIsPrefixRun(index, prefix, delimiter, s, s + 1);
      }
    } else {
      StartAfterKey(index, prefix, delimiter, s);
    }
  }

  lemma FollowingRequest(index: seq<IndexedObject>, prefix: Str, delimiter: Str, first: nat, r: Scanned)
    requires ValidIndex(index) && EndsWithEntry(Rows(index, prefix, delimiter), first, r)
    ensures first < r.stop <= Start(index, prefix, Last(r.page).value, delimiter)
    ensures NoShadow(index, prefix, delimiter) ==>
              Start(index, prefix, Last(r.page).value, delimiter) == Next(Rows(index, prefix, delimiter), r.stop - 1)
  {
    NextRequest(index, prefix, delimiter, r.stop - 1);
  }

  /** Every token the agent hands out is one it will accept back. */
  lemma IssuedTokensAreValid(index: seq<IndexedObject>, prefix: Str, maxKeys: nat, token: Str, delimiter: Str)
    requires ValidIndex(index)
    ensures var r := Request(index, prefix, maxKeys, token, delimiter);
            r.next.Some? ==> AcceptsToken(index, prefix, r.next.value, delimiter)
  {
    var rows, first := Rows(index, prefix, delimiter), Start(index, prefix, token, delimiter);
    var r := Scan(rows, first, {}, maxKeys);
    if HasMore(rows, r) {
      RowsGrouped(index, prefix, delimiter);
      TokenIsLastEntry(rows, first, maxKeys);
      EntryTokenIsValid(index, prefix, delimiter, first, r);
    }
  }

  lemma EntryTokenIsValid(index: seq<IndexedObject>, prefix: Str, delimiter: Str, first: nat, r: Scanned)
    requires ValidIndex(index) && EndsWithEntry(Rows(index, prefix, delimiter), first, r)
    ensures AcceptsToken(index, prefix, Last(r.page).value, delimiter)
  {
    ItemTokenIsValid(index, prefix, delimiter, r.stop - 1);
  }

  lemma ItemTokenIsValid(index: seq<IndexedObject>, prefix: Str, delimiter: Str, s: nat)
    requires ValidIndex(index)
    requires s < |index| && prefix <= index[s].key
    ensures AcceptsToken(index, prefix, ItemOf(index[s], prefix, delimiter).value, delimiter)
  {
    ItemShape(index[s], prefix, delimiter);
  }

  /** Following the tokens lists exactly the items, whatever the page size. */
  lemma {:induction false} FollowListsItems(index: seq<IndexedObject>, prefix: Str, maxKeys: nat, token: Str, delimiter: Str)
    requires ValidIndex(index) && maxKeys >= 1
    requires NoShadow(index, prefix, delimiter)
    ensures Follow(index, prefix, maxKeys, token, delimiter)
         == Items(Rows(index, prefix, delimiter), Start(index, prefix, token, delimiter))
    decreases |index| - Start(index, prefix, token, delimiter)
  {
    var rows, first := Rows(index, prefix, delimiter), Start(index, prefix, token, delimiter);
    var r := Scan(rows, first, {}, maxKeys);
    RowsGrouped(index, prefix, delimiter);
    ScanCovers(rows, first, {}, maxKeys);
    if More(rows, r.stop) {
      FollowingRequest(index, prefix, delimiter, first, r);
      FollowListsItems(index, prefix, maxKeys, Last(r.page).value, delimiter);
    }
  }

  // ---------------------------------------------------------------------------------------------
  // The items are the listing
  // ---------------------------------------------------------------------------------------------

  lemma LaterItemIsGreater(index: seq<IndexedObject>, prefix: Str, delimiter: Str, i: nat, j: nat)
    requires ValidIndex(index)
    requires i < |index| && prefix <= index[i].key
    requires Next(Rows(index, prefix, delimiter), i) <= j < |index| && prefix <= index[j].key
    ensures Less(ItemOf(index[i], prefix, delimiter).value, ItemOf(index[j], prefix, delimiter).value)
  {
    var a, b := ItemOf(index[i], prefix, delimiter), ItemOf(index[j], prefix, delimiter);
    ItemShape(index[i], prefix, delimiter);
    ItemShape(index[j], prefix, delimiter);
    LessTrichotomy(a.value, b.value);
    if !Less(a.value, b.value) {
      PrefixNotGreater(a.value, index[i].key);
      NotLessTransitive(a.value, index[i].key, index[j].key);
      PrefixConvex(b.value, b.value, a.value, index[j].key);
      LessTrichotomy(index[i].key, index[j].key);
      if b.commonPrefix {
        SameGroup(index[j], index[i], prefix, delimiter);
        RowsGrouped(index, prefix, delimiter);
      }
    }
  }

  lemma NotLessTransitive(a: Str, b: Str, c: Str)
    requires !Less(b, a) && Less(b, c)
    ensures !Less(c, a)
  {
    if Less(c, a) {
      LessTransitive(b, c, a);
    }
  }

  lemma ItemsAreAllItems(index: seq<IndexedObject>, prefix: Str, delimiter: Str, i: nat, item: ListItem)
    requires ValidIndex(index)
    requires LowerBound(index, prefix) <= i <= |index|
    ensures item in Items(Rows(index, prefix, delimiter), i) <==> Shows(Rows(index, prefix, delimiter), i, item)
  {
    var rows := Rows(index, prefix, delimiter);
    forall j, k | i <= j <= k < |rows| && rows[k].Listed? ensures rows[j].Listed? {
      LowerBoundOfPrefix(index, prefix, k);
    }
    ItemsShow(rows, i, item);
  }

  lemma {:induction false} ItemsAscend(index: seq<IndexedObject>, prefix: Str, delimiter: Str, i: nat)
    requires ValidIndex(index)
    requires LowerBound(index, prefix) <= i <= |index|
    ensures var items := Items(Rows(index, prefix, delimiter), i);
            forall a, b | 0 <= a < b < |items| :: Less(items[a].value, items[b].value)
    decreases |index| - i
  {
    var rows := Rows(index, prefix, delimiter);
    if More(rows, i) {
      var n := Next(rows, i);
      var rest := Items(rows, n);
      ItemsAscend(index, prefix, delimiter, n);
      forall b | 0 <= b < |rest| ensures Less(rows[i].item.value, rest[b].value) {
        ItemsAreAllItems(index, prefix, delimiter, n, rest[b]);
        var j :| n <= j < |index| && rows[j] == Listed(rest[b]);
        LaterItemIsGreater(index, prefix, delimiter, i, j);
      }
    }
  }

  lemma ItemsAreTheListing(index: seq<IndexedObject>, prefix: Str, delimiter: Str)
    requires ValidIndex(index)
    ensures IsListing(Items(Rows(index, prefix, delimiter), LowerBound(index, prefix)), index, prefix, delimiter)
  {
    var rows, l := Rows(index, prefix, delimiter), LowerBound(index, prefix);
    ItemsAscend(index, prefix, delimiter, l);
    forall item ensures item in Items(rows, l) <==> IsItem(item, index, prefix, delimiter) {
      ItemsAreAllItems(index, prefix, delimiter, l, item);
      if IsItem(item, index, prefix, delimiter) {
        var j :| 0 <= j < |index| && prefix <= index[j].key && item == ItemOf(index[j], prefix, delimiter);
        LowerBoundOfPrefix(index, prefix, j);
        assert rows[j] == Listed(item);
      }
    }
  }

  /** There is only one listing. */
  lemma ListingUnique(a: seq<ListItem>, b: seq<ListItem>, index: seq<IndexedObject>, prefix: Str, delimiter: Str)
    requires IsListing(a, index, prefix, delimiter) && IsListing(b, index, prefix, delimiter)
    ensures a == b
  {
    forall item ensures item in a <==> item in b {
    }
    AscendingUnique(a, b);
  }

  lemma AscendingTail(a: seq<ListItem>, item: ListItem)
    requires a != [] && forall i, j | 0 <= i < j < |a| :: Less(a[i].value, a[j].value)
    ensures item in a[1..] <==> item in a && item != a[0]
  {
    LessTrichotomy(a[0].value, a[0].value);
    assert a == [a[0]] + a[1..];
  }

  lemma {:induction false} AscendingUnique(a: seq<ListItem>, b: seq<ListItem>)
    requires forall i, j | 0 <= i < j < |a| :: Less(a[i].value, a[j].value)
    requires forall i, j | 0 <= i < j < |b| :: Less(b[i].value, b[j].value)
    requires forall item :: item in a <==> item in b
    ensures a == b
  {
    assert a != [] ==> a[0] in a && a[0] in b;
    assert b != [] ==> b[0] in b && b[0] in a;
    if a != [] {
      LessTrichotomy(a[0].value, b[0].value);
      LessTrichotomy(a[0].value, a[0].value);
      forall item ensures item in a[1..] <==> item in b[1..] {
        AscendingTail(a, item);
        AscendingTail(b, item);
      }
      AscendingUnique(a[1..], b[1..]);
      assert a == [a[0]] + a[1..];
    }
  }

  // ---------------------------------------------------------------------------------------------
  // What one request answers
  // ---------------------------------------------------------------------------------------------

  lemma LowerBoundMeans(index: seq<IndexedObject>, key: Str, j: nat)
    requires ValidIndex(index) && j < |index|
    ensures LowerBound(index, key) <= j <==> !Less(index[j].key, key)
  {
    hide LowerBound, Less;
    var l := LowerBound(index, key);
    if l < j && Less(index[j].key, key) {
      LessTransitive(index[l].key, index[j].key, key);
    }
  }

  lemma UpperBoundMeans(index: seq<IndexedObject>, key: Str, j: nat)
    requires ValidIndex(index) && j < |index|
    ensures UpperBound(index, key) <= j <==> Less(key, index[j].key)
  {
    hide UpperBound, Less;
    var u := UpperBound(index, key);
    if u < j {
      LessTransitive(key, index[u].key, index[j].key);
    }
  }

  lemma SkipPrefixMeans(index: seq<IndexedObject>, p: Str, j: nat)
    requires ValidIndex(index) && j < |index|
    ensures SkipPrefix(index, LowerBound(index, p), p) <= j <==> Less(p, index[j].key) && !(p <= index[j].key)
  {
    hide LowerBound, SkipPrefix, Less;
    var l, r := LowerBound(index, p), SkipPrefix(index, LowerBound(index, p), p);
    LowerBoundMeans(index, p, j);
    LessTrichotomy(p, index[j].key);
    if r <= j && p <= index[j].key {
      LowerBoundMeans(index, p, r);
      LessTrichotomy(index[r].key, index[j].key);
      PrefixConvex(p, p, index[r].key, index[j].key);
    }
  }

  /** A request starts at the first key that is not below the prefix and beyond the token. */
  lemma StartMeans(index: seq<IndexedObject>, prefix: Str, token: Str, delimiter: Str, j: nat)
    requires ValidIndex(index) && j < |index|
    ensures Start(index, prefix, token, delimiter) <= j <==> !Less(index[j].key, prefix) && Beyond(index[j].key, token, delimiter)
  {
    LowerBoundMeans(index, prefix, j);
    UpperBoundMeans(index, token, j);
    SkipPrefixMeans(index, token, j);
  }

  /** The items from the start of a request on are those beyond its token. */
  lemma ItemsAreListingAfter(index: seq<IndexedObject>, prefix: Str, token: Str, delimiter: Str)
    requires ValidIndex(index)
    ensures IsListingAfter(Items(Rows(index, prefix, delimiter), Start(index, prefix, token, delimiter)),
                           index, prefix, token, delimiter)
  {
    hide Start, Beyond, ItemOf;
    var rows, first := Rows(index, prefix, delimiter), Start(index, prefix, token, delimiter);
    StartIsUnderPrefix(index, prefix, token, delimiter);
    ItemsAscend(index, prefix, delimiter, first);
    forall item ensures item in Items(rows, first) <==> IsItemAfter(item, index, prefix, token, delimiter) {
      ItemsAreAllItems(index, prefix, delimiter, first, item);
      if Shows(rows, first, item) {
        var j :| first <= j < |rows| && rows[j] == Listed(item);
        StartMeans(index, prefix, token, delimiter, j);
      }
      if IsItemAfter(item, index, prefix, token, delimiter) {
        var j :| 0 <= j < |index| && prefix <= index[j].key && Beyond(index[j].key, token, delimiter)
                 && item == ItemOf(index[j], prefix, delimiter);
        PrefixNotGreater(prefix, index[j].key);
        StartMeans(index, prefix, token, delimiter, j);
        assert rows[j] == Listed(item);
      }
    }
  }

  lemma StartIsUnderPrefix(index: seq<IndexedObject>, prefix: Str, token: Str, delimiter: Str)
    ensures LowerBound(index, prefix) <= Start(index, prefix, token, delimiter)
  {
  }

  lemma PlainRowsDiffer(index: seq<IndexedObject>, prefix: Str, delimiter: Str)
    requires ValidIndex(index)
    ensures PlainDistinct(Rows(index, prefix, delimiter))
  {
    var rows := Rows(index, prefix, delimiter);
    forall i, j | 0 <= i < j < |rows| && rows[i].Listed? && rows[i] == rows[j]
      ensures rows[i].item.commonPrefix
    {
      LessTrichotomy(index[i].key, index[j].key);
    }
  }

  /** Whether keys remain after a full page is seen from the keys alone. */
  lemma FullPageFollows(index: seq<IndexedObject>, prefix: Str, maxKeys: nat, token: Str, delimiter: Str)
    requires ValidIndex(index) && maxKeys > 0
    requires var r := Scan(Rows(index, prefix, delimiter), Start(index, prefix, token, delimiter), {}, maxKeys); |r.page| == maxKeys
    ensures var rows := Rows(index, prefix, delimiter);
            var r := Scan(rows, Start(index, prefix, token, delimiter), {}, maxKeys);
            More(rows, r.stop) <==> KeysFollow(index, prefix, token, delimiter, Last(r.page))
  {
    hide Start, Beyond, ItemOf, Scan;
    var rows, first := Rows(index, prefix, delimiter), Start(index, prefix, token, delimiter);
    var r := Scan(rows, first, {}, maxKeys);
    PlainRowsDiffer(index, prefix, delimiter);
    FullPageEnds(rows, first, {}, maxKeys);
    var last := r.stop - 1;
    StartMeans(index, prefix, token, delimiter, last);
    if KeysFollow(index, prefix, token, delimiter, Last(r.page)) {
      var j, k :| 0 <= j < k < |index| && prefix <= index[j].key && Beyond(index[j].key, token, delimiter)
                  && Last(r.page) == ItemOf(index[j], prefix, delimiter) && prefix <= index[k].key;
      PrefixNotGreater(prefix, index[j].key);
      StartMeans(index, prefix, token, delimiter, j);
      assert rows[j] == rows[last];
      GroupContiguous(index, prefix, last, r.stop, k);
    }
  }

  /** For every valid index and every token: the page is the start of the listing of what lies beyond the token. */
  lemma RequestAnswers(index: seq<IndexedObject>, prefix: Str, maxKeys: nat, token: Str, delimiter: Str)
    requires ValidIndex(index)
    ensures var r := Request(index, prefix, maxKeys, token, delimiter);
            Answers(index, prefix, maxKeys, token, delimiter, r.page, r.truncated)
  {
    hide Start, KeysFollow, IsListingAfter, Scan, Items, Classify, Next, EndsWithEntry;
    var rows, first := Rows(index, prefix, delimiter), Start(index, prefix, token, delimiter);
    var items, r := Items(rows, first), Scan(rows, first, {}, maxKeys);
    ItemsAreListingAfter(index, prefix, token, delimiter);
    if maxKeys > 0 {
      RowsGrouped(index, prefix, delimiter);
      ScanCovers(rows, first, {}, maxKeys);
      TruncatedIsFull(rows, first, {}, maxKeys);
      if |r.page| == maxKeys {
        FullPageFollows(index, prefix, maxKeys, token, delimiter);
      }
    } else {
      NothingAsked(rows, first);
    }
    assert IsFirstPage(items, index, prefix, maxKeys, token, delimiter, r.page, More(rows, r.stop));
  }

  /** Without a shadowing key, the listing beyond an issued token is the rest of the listing after it. */
  lemma IssuedTokenResumes(index: seq<IndexedObject>, prefix: Str, token: Str, delimiter: Str, items: seq<ListItem>, k: nat)
    requires ValidIndex(index) && NoShadow(index, prefix, delimiter)
    requires IsListing(items, index, prefix, delimiter) && k < |items| && items[k].value == token
    ensures IsListingAfter(items[k + 1..], index, prefix, token, delimiter)
  {
    hide Start, Beyond, ItemOf, Shadows;
    var rows := Rows(index, prefix, delimiter);
    assert IsItem(items[k], index, prefix, delimiter);
    var s :| 0 <= s < |index| && prefix <= index[s].key && items[k] == ItemOf(index[s], prefix, delimiter);
    NextRequest(index, prefix, delimiter, s);
    var n := Next(rows, s);
    forall item ensures item in items[k + 1..] <==> IsItemAfter(item, index, prefix, token, delimiter) {
      if item in items {
        var j :| 0 <= j < |index| && prefix <= index[j].key && item == ItemOf(index[j], prefix, delimiter);
        AfterNextIffGreater(index, prefix, delimiter, s, j);
        PrefixNotGreater(prefix, index[j].key);
        StartMeans(index, prefix, token, delimiter, j);
        LaterIffGreater(items, k, item);
      }
      if IsItemAfter(item, index, prefix, token, delimiter) {
        var j :| 0 <= j < |index| && prefix <= index[j].key && Beyond(index[j].key, token, delimiter)
                 && item == ItemOf(index[j], prefix, delimiter);
        assert item in items by { assert IsItem(item, index, prefix, delimiter); }
        PrefixNotGreater(prefix, index[j].key);
        StartMeans(index, prefix, token, delimiter, j);
        AfterNextIffGreater(index, prefix, delimiter, s, j);
        LaterIffGreater(items, k, item);
      }
    }
  }

  lemma LaterIffGreater(items: seq<ListItem>, k: nat, item: ListItem)
    requires k < |items| && item in items && forall a, b | 0 <= a < b < |items| :: Less(items[a].value, items[b].value)
    ensures item in items[k + 1..] <==> Less(items[k].value, item.value)
  {
    var i :| 0 <= i < |items| && items[i] == item;
    LessTrichotomy(items[k].value, items[i].value);
    if i > k {
      assert items[k + 1..][i - k - 1] == item;
    }
  }

  /** The keys after the group of an entry are those that show up as something greater. */
  lemma AfterNextIffGreater(index: seq<IndexedObject>, prefix: Str, delimiter: Str, s: nat, j: nat)
    requires ValidIndex(index) && s < |index| && j < |index| && prefix <= index[s].key && prefix <= index[j].key
    ensures Next(Rows(index, prefix, delimiter), s) <= j
       <==> Less(ItemOf(index[s], prefix, delimiter).value, ItemOf(index[j], prefix, delimiter).value)
  {
    hide ItemOf;
    var rows := Rows(index, prefix, delimiter);
    LessTrichotomy(rows[s].item.value, rows[j].item.value);
    LessTrichotomy(rows[s].item.value, rows[s].item.value);
    if Next(rows, s) <= j {
      LaterItemIsGreater(index, prefix, delimiter, s, j);
    } else if j < s && rows[j] != rows[s] {
      RowsGrouped(index, prefix, delimiter);
      assert Next(rows, j) <= s;
      LaterItemIsGreater(index, prefix, delimiter, j, s);
    }
  }

  // ---------------------------------------------------------------------------------------------
  // Exactly when paging is complete
  // ---------------------------------------------------------------------------------------------

  /** No page ever lists anything before its starting position. */
  lemma {:induction false} FollowOnlyLater(index: seq<IndexedObject>, prefix: Str, maxKeys: nat, token: Str, delimiter: Str,
                                           item: ListItem)
    requires ValidIndex(index) && maxKeys >= 1
    requires item in Follow(index, prefix, maxKeys, token, delimiter)
    ensures Shows(Rows(index, prefix, delimiter), Start(index, prefix, token, delimiter), item)
    decreases |index| - Start(index, prefix, token, delimiter)
  {
    var rows, first := Rows(index, prefix, delimiter), Start(index, prefix, token, delimiter);
    var r := Scan(rows, first, {}, maxKeys);
    if item in r.page {
      ScanOnlyLater(rows, first, {}, maxKeys, item);
    } else {
      RowsGrouped(index, prefix, delimiter);
      TokenIsLastEntry(rows, first, maxKeys);
      FollowingRequest(index, prefix, delimiter, first, r);
      FollowOnlyLater(index, prefix, maxKeys, Last(r.page).value, delimiter, item);
    }
  }

  /** The key right after a shadowing key is one it swallows. */
  lemma ShadowedNext(index: seq<IndexedObject>, prefix: Str, delimiter: Str, s: nat)
    requires ValidIndex(index)
    requires s < |index| && Shadows(index, prefix, delimiter, s)
    ensures s + 1 < |index| && prefix <= index[s].key <= index[s + 1].key
  {
    hide ItemOf, EndsWith;
    var k :| s < k < |index| && index[s].key <= index[k].key;
    GroupContiguous(index, index[s].key, s, s + 1, k);
  }

  /** The whole group of the key right after a shadowing key is swallowed. */
  lemma ShadowedGroup(index: seq<IndexedObject>, prefix: Str, delimiter: Str, s: nat)
    requires ValidIndex(index)
    requires s < |index| && Shadows(index, prefix, delimiter, s)
    ensures s + 1 < |index| && prefix <= index[s].key <= index[s + 1].key
    ensures Next(Rows(index, prefix, delimiter), s + 1) <= SkipPrefix(index, s + 1, index[s].key)
  {
    ShadowedNext(index, prefix, delimiter, s);
    hide Find, EndsWith, ItemOf, ValidIndex;
    var key, n := index[s].key, Next(Rows(index, prefix, delimiter), s + 1);
    if ItemOf(index[s + 1], prefix, delimiter).commonPrefix {
      SwallowedPrefix(index[s], index[s + 1], prefix, delimiter);
      GroupIsPrefixRun(index, prefix, delimiter, s + 1, s + 2);
    }
    SkipPrefixFrom(index, s + 1, n, key);
  }

  /** A common prefix of a swallowed key extends the plain key that swallows it. */
  lemma SwallowedPrefix(plain: IndexedObject, longer: IndexedObject, prefix: Str, delimiter: Str)
    requires prefix <= plain.key <= longer.key
    requires !ItemOf(plain, prefix, delimiter).commonPrefix && ItemOf(longer, prefix, delimiter).commonPrefix
    ensures plain.key <= ItemOf(longer, prefix, delimiter).value
  {
    var value := ItemOf(longer, prefix, delimiter).value;
    ItemShape(longer, prefix, delimiter);
    if value <= plain.key {
      SameGroup(longer, plain, prefix, delimiter);
    }
    PrefixesCompare(value, plain.key, longer.key);
  }

  /** Up to a shadowing key everything is under the prefix, and no earlier group reaches it. */
  lemma ShadowAhead(index: seq<IndexedObject>, prefix: Str, delimiter: Str, first: nat, k: nat)
    requires ValidIndex(index)
    requires LowerBound(index, prefix) <= first <= k < |index| && Shadows(index, prefix, delimiter, k)
    ensures More(Rows(index, prefix, delimiter), first) && More(Rows(index, prefix, delimiter), first + 1)
    ensures k == first || Next(Rows(index, prefix, delimiter), first) <= k
  {
    LowerBoundOfPrefix(index, prefix, k);
    ShadowedGroup(index, prefix, delimiter, k);
    assert !Rows(index, prefix, delimiter)[k].item.commonPrefix;
  }

  lemma PrefixesCompare(a: Str, b: Str, c: Str)
    requires a <= c && b <= c && !(a <= b)
    ensures b <= a
  {
  }

  /** One key per page: a shadowing key loses the key after it. */
  lemma ShadowedKeyIsLost(index: seq<IndexedObject>, prefix: Str, delimiter: Str, s: nat)
    requires ValidIndex(index)
    requires s < |index| && Shadows(index, prefix, delimiter, s)
    ensures Follow(index, prefix, 1, index[s].key, delimiter) != Items(Rows(index, prefix, delimiter), s + 1)
  {
    ShadowedGroup(index, prefix, delimiter, s);
    StartAfterGroup(index, prefix, index[s].key, delimiter, s);
    var rows, n := Rows(index, prefix, delimiter), SkipPrefix(index, s + 1, index[s].key);
    var lost := ItemOf(index[s + 1], prefix, delimiter);
    assert lost == Items(rows, s + 1)[0];
    if lost in Follow(index, prefix, 1, index[s].key, delimiter) {
      FollowOnlyLater(index, prefix, 1, index[s].key, delimiter, lost);
      var j :| n <= j < |index| && rows[j] == Listed(lost);
      LaterItemIsGreater(index, prefix, delimiter, s + 1, j);
      LessTrichotomy(lost.value, lost.value);
    }
  }

  lemma FirstOfOnePage(index: seq<IndexedObject>, prefix: Str, token: Str, delimiter: Str)
    requires ValidIndex(index)
    requires More(Rows(index, prefix, delimiter), Start(index, prefix, token, delimiter))
    requires More(Rows(index, prefix, delimiter), Start(index, prefix, token, delimiter) + 1)
    ensures var item := Rows(index, prefix, delimiter)[Start(index, prefix, token, delimiter)].item;
            Follow(index, prefix, 1, token, delimiter) == [item] + Follow(index, prefix, 1, item.value, delimiter)
  {
    hide ItemOf, Classify;
    var rows, first := Rows(index, prefix, delimiter), Start(index, prefix, token, delimiter);
    var item := rows[first].item;
    assert [item] + [] == [item];
    assert Scan(rows, first, {}, 1) == Scanned([item], first + 1);
    assert Last([item]) == item;
  }

  lemma ShadowIsPlain(index: seq<IndexedObject>, prefix: Str, delimiter: Str, s: nat)
    requires s < |index| && Shadows(index, prefix, delimiter, s)
    ensures var rows := Rows(index, prefix, delimiter);
            rows[s].Listed? && rows[s].item.value == index[s].key && Next(rows, s) == s + 1
  {
  }

  /** One key per page: what the first page lists, and where the second starts. */
  lemma OnePageStep(index: seq<IndexedObject>, prefix: Str, token: Str, delimiter: Str, k: nat)
    requires ValidIndex(index)
    requires Start(index, prefix, token, delimiter) <= k < |index| && Shadows(index, prefix, delimiter, k)
    ensures var rows, first := Rows(index, prefix, delimiter), Start(index, prefix, token, delimiter);
            && rows[first].Listed?
            && Follow(index, prefix, 1, token, delimiter)
               == [rows[first].item] + Follow(index, prefix, 1, rows[first].item.value, delimiter)
            && Items(rows, first) == [rows[first].item] + Items(rows, Next(rows, first))
            && (Shadows(index, prefix, delimiter, first) ==>
                  rows[first].item.value == index[first].key && Next(rows, first) == first + 1)
            && (!Shadows(index, prefix, delimiter, first) ==>
                  first < Start(index, prefix, rows[first].item.value, delimiter) == Next(rows, first) <= k)
  {
    hide ValidIndex, Follow, ItemOf, Find, EndsWith, SkipPrefix;
    var rows, first := Rows(index, prefix, delimiter), Start(index, prefix, token, delimiter);
    ShadowAhead(index, prefix, delimiter, first, k);
    FirstOfOnePage(index, prefix, token, delimiter);
    NextRequest(index, prefix, delimiter, first);
    if Shadows(index, prefix, delimiter, first) {
      ShadowIsPlain(index, prefix, delimiter, first);
    }
  }

  lemma {:induction false} ShadowBreaksPaging(index: seq<IndexedObject>, prefix: Str, token: Str, delimiter: Str, k: nat)
    requires ValidIndex(index)
    requires Start(index, prefix, token, delimiter) <= k < |index| && Shadows(index, prefix, delimiter, k)
    ensures Follow(index, prefix, 1, token, delimiter)
         != Items(Rows(index, prefix, delimiter), Start(index, prefix, token, delimiter))
    decreases |index| - Start(index, prefix, token, delimiter)
  {
    hide ValidIndex, Follow, Items, Start, Classify, Next, Shadows;
    var rows, first := Rows(index, prefix, delimiter), Start(index, prefix, token, delimiter);
    OnePageStep(index, prefix, token, delimiter, k);
    var item := rows[first].item;
    if Shadows(index, prefix, delimiter, first) {
      ShadowedKeyIsLost(index, prefix, delimiter, first);
    } else {
      ShadowBreaksPaging(index, prefix, item.value, delimiter, k);
    }
    ConsCancel(item, Follow(index, prefix, 1, item.value, delimiter), Items(rows, Next(rows, first)));
  }

  /**
    * Following the tokens yields the complete listing for every page size, if and only if no plain key
    * under the prefix that ends with the delimiter is a proper prefix of another key.
    */
  lemma PagingCompleteIffNoShadow(index: seq<IndexedObject>, prefix: Str, delimiter: Str)
    requires ValidIndex(index)
    ensures (forall maxKeys: nat | maxKeys >= 1 ::
               IsListing(Follow(index, prefix, maxKeys, [], delimiter), index, prefix, delimiter))
       <==> NoShadow(index, prefix, delimiter)
  {
    ItemsAreTheListing(index, prefix, delimiter);
    if NoShadow(index, prefix, delimiter) {
      forall maxKeys: nat | maxKeys >= 1
        ensures IsListing(Follow(index, prefix, maxKeys, [], delimiter), index, prefix, delimiter)
      {
        FollowListsItems(index, prefix, maxKeys, [], delimiter);
      }
    } else {
      var k :| 0 <= k < |index| && Shadows(index, prefix, delimiter, k);
      LowerBoundOfPrefix(index, prefix, k);
      ShadowBreaksPaging(index, prefix, [], delimiter, k);
      if IsListing(Follow(index, prefix, 1, [], delimiter), index, prefix, delimiter) {
        ListingUnique(Follow(index, prefix, 1, [], delimiter),
                      Items(Rows(index, prefix, delimiter), LowerBound(index, prefix)), index, prefix, delimiter);
      }
    }
  }

  /** Such an index: with "a/" and "a/b" under prefix "a/", paging by one key loses "a/b". */
  lemma ShadowingIndex() returns (index: seq<IndexedObject>, prefix: Str, delimiter: Str)
    ensures ValidIndex(index) && |index| == 2 && Shadows(index, prefix, delimiter, 0)
    ensures !IsListing(Follow(index, prefix, 1, [], delimiter), index, prefix, delimiter)
  {
    var a, b: Str := [97, 47], [97, 47, 98];
    index, prefix, delimiter := [IndexedObject(a, 1), IndexedObject(b, 1)], a, [47];
    assert a[|prefix|..] == [] && Find([], delimiter) == None;
    assert index[1].key[..2] == a && index[0].key <= index[1].key;
    assert EndsWith(a, delimiter);
    assert Less(a, b) by {
      assert a[1..] == [47] && b[1..] == [47, 98] && a[1..][1..] == [] && b[1..][1..] == [98];
      assert Less(a[1..], b[1..]);
    }
    ItemsAreTheListing(index, prefix, delimiter);
    LowerBoundOfPrefix(index, prefix, 0);
    ShadowBreaksPaging(index, prefix, [], delimiter, 0);
    if IsListing(Follow(index, prefix, 1, [], delimiter), index, prefix, delimiter) {
      ListingUnique(Follow(index, prefix, 1, [], delimiter),
                    Items(Rows(index, prefix, delimiter), Start(index, prefix, [], delimiter)), index, prefix, delimiter);
    }
  }
}
