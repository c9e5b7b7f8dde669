/**
  * The page-filling loop of a listing request, over index entries already classified against the
  * requested prefix and delimiter.
  */
module ListingRows {
  import opened Sequences
  import opened ByteStrings

  datatype ListItem = ListItem(value: Str, size: nat, commonPrefix: bool)

  /** How an index entry shows up in a listing, if it lies under the requested prefix. */
  datatype Row = Outside | Listed(item: ListItem)

  /** What a scan collected and the position it stopped at. */
  datatype Scanned = Scanned(page: seq<ListItem>, stop: nat)

  predicate More(rows: seq<Row>, stop: nat) {
    stop < |rows| && rows[stop].Listed?
  }

  /** The agent answers with a `NextContinuationToken`. */
  predicate HasMore(rows: seq<Row>, r: Scanned) {
    More(rows, r.stop) && r.page != []
  }

  /** The scan loop as a function: the page it fills and the position it stops at. */
  function Scan(rows: seq<Row>, i: nat, emitted: set<Str>, room: nat): (r: Scanned)
    requires i <= |rows|
    ensures i <= r.stop <= |rows|
    ensures |r.page| <= room
    decreases |rows| - i
  {
    if room == 0 || !More(rows, i) then Scanned([], i)
    else
      var item := rows[i].item;
      if item.commonPrefix && item.value in emitted then Scan(rows, i + 1, emitted, room)
      else
        var rest := Scan(rows, i + 1, Emit(emitted, item), room - 1);
        Scanned([item] + rest.page, rest.stop)
  }

  function Emit(emitted: set<Str>, item: ListItem): (r: set<Str>) {
    if item.commonPrefix then emitted + {item.value} else emitted
  }

  /** One turn of the loop that lists a new item. */
  lemma ScanListsItem(rows: seq<Row>, i: nat, emitted: set<Str>, room: nat, page: seq<ListItem>)
    requires More(rows, i) && room > 0
    requires !rows[i].item.commonPrefix || rows[i].item.value !in emitted
    ensures var now, later := Scan(rows, i, emitted, room), Scan(rows, i + 1, Emit(emitted, rows[i].item), room - 1);
            now.stop == later.stop && page + now.page == (page + [rows[i].item]) + later.page
  {
    AppendAssociative(page, [rows[i].item], Scan(rows, i + 1, Emit(emitted, rows[i].item), room - 1).page);
  }

  /** The first position at or after `i` that does not show up as `row`. */
  function SkipRow(rows: seq<Row>, i: nat, row: Row): (n: nat)
    requires i <= |rows|
    ensures i <= n <= |rows|
    ensures forall j | i <= j < n :: rows[j] == row
    ensures n < |rows| ==> rows[n] != row
    decreases |rows| - i
  {
    if i < |rows| && rows[i] == row then SkipRow(rows, i + 1, row) else i
  }

  /** Where the next item starts: past the whole group of a common prefix. */
  function Next(rows: seq<Row>, i: nat): (n: nat)
    requires More(rows, i)
    ensures i < n <= |rows|
  {
    if rows[i].item.commonPrefix then SkipRow(rows, i + 1, rows[i]) else i + 1
  }

  /** The items from position `i` on, each common prefix once. */
  ghost function Items(rows: seq<Row>, i: nat): (items: seq<ListItem>)
    requires i <= |rows|
    decreases |rows| - i
  {
    if !More(rows, i) then [] else [rows[i].item] + Items(rows, Next(rows, i))
  }

  /** Entries rolled up into the same common prefix are next to each other. */
  ghost predicate Grouped(rows: seq<Row>) {
    && (forall i, j, k | 0 <= i <= j <= k < |rows| && Common(rows, i) && rows[i] == rows[k] :: rows[j] == rows[i])
    && (forall i | 0 <= i < |rows| && Common(rows, i) :: rows[i].item == ListItem(rows[i].item.value, 0, true))
  }

  predicate Common(rows: seq<Row>, i: nat)
    requires i < |rows|
  {
    rows[i].Listed? && rows[i].item.commonPrefix
  }

  /** No entry from `i` on belongs to a common prefix already listed. */
  ghost predicate Fresh(rows: seq<Row>, i: nat, emitted: set<Str>) {
    forall j | i <= j < |rows| && Common(rows, j) :: rows[j].item.value !in emitted
  }

  /** The last item of the page comes from the last entry scanned. */
  ghost predicate EndsWithEntry(rows: seq<Row>, first: nat, r: Scanned) {
    && r.page != []
    && first < r.stop <= |rows|
    && rows[r.stop - 1] == Listed(Last(r.page))
  }

  /** What one request lists, and what it leaves for the following ones. */
  ghost predicate Covers(rows: seq<Row>, i: nat, r: Scanned)
    requires i <= |rows|
  {
    if More(rows, r.stop) then
      EndsWithEntry(rows, i, r) && Items(rows, i) == r.page + Items(rows, Next(rows, r.stop - 1))
    else Items(rows, i) == r.page
  }

  lemma FreshAfterGroup(rows: seq<Row>, i: nat, emitted: set<Str>)
    requires Grouped(rows) && i < |rows| && Common(rows, i) && Fresh(rows, i, emitted)
    ensures Fresh(rows, Next(rows, i), emitted + {rows[i].item.value})
  {
    var n := Next(rows, i);
    assert forall j | n <= j < |rows| && Common(rows, j) :: rows[j] != rows[i];
  }

  /** Within a listed group the loop only advances. */
  lemma {:induction false} ScanSkipsGroup(rows: seq<Row>, row: Row, i: nat, emitted: set<Str>, room: nat)
    requires i <= |rows| && room > 0
    requires row.Listed? && row.item.commonPrefix && row.item.value in emitted
    ensures Scan(rows, i, emitted, room) == Scan(rows, SkipRow(rows, i, row), emitted, room)
    decreases |rows| - i
  {
    if i < |rows| && rows[i] == row {
      ScanSkipsGroup(rows, row, i + 1, emitted, room);
    }
  }

  lemma ListedFirst(rows: seq<Row>, i: nat, rest: Scanned)
    requires More(rows, i) && Covers(rows, Next(rows, i), rest)
    ensures Covers(rows, i, Scanned([rows[i].item] + rest.page, rest.stop))
  {
    if More(rows, rest.stop) {
      LastOfCons(rows[i].item, rest.page);
      AppendAssociative([rows[i].item], rest.page, Items(rows, Next(rows, rest.stop - 1)));
    }
  }

  /** A page that is full after its first item. */
  lemma ListedOnly(rows: seq<Row>, i: nat)
    requires More(rows, i)
    ensures Covers(rows, i, Scanned([rows[i].item], i + 1))
  {
    assert [rows[i].item] + [] == [rows[i].item];
  }

  /** A page is the next stretch of items, and the token for the rest names its last entry. */
  lemma {:induction false} ScanCovers(rows: seq<Row>, i: nat, emitted: set<Str>, room: nat)
    requires Grouped(rows) && room > 0
    requires i <= |rows| && Fresh(rows, i, emitted)
    ensures Covers(rows, i, Scan(rows, i, emitted, room))
    decreases |rows| - i
  {
    if More(rows, i) {
      var item, next := rows[i].item, Next(rows, i);
      if room == 1 {
        ListedOnly(rows, i);
        assert [item] + [] == [item];
      } else {
        if item.commonPrefix {
          FreshAfterGroup(rows, i, emitted);
          ScanSkipsGroup(rows, rows[i], i + 1, emitted + {item.value}, room - 1);
        }
        ScanCovers(rows, next, Emit(emitted, item), room - 1);
        ListedFirst(rows, i, Scan(rows, next, Emit(emitted, item), room - 1));
      }
    }
  }

  /** The token a page hands out names the last entry scanned. */
  lemma TokenIsLastEntry(rows: seq<Row>, first: nat, maxKeys: nat)
    requires Grouped(rows) && first <= |rows|
    requires HasMore(rows, Scan(rows, first, {}, maxKeys))
    ensures EndsWithEntry(rows, first, Scan(rows, first, {}, maxKeys))
  {
    ScanCovers(rows, first, {}, maxKeys);
  }

  /** `item` shows up at or after position `from`. */
  ghost predicate Shows(rows: seq<Row>, from: nat, item: ListItem) {
    exists j | from <= j < |rows| :: rows[j] == Listed(item)
  }

  lemma {:induction false} ScanOnlyLater(rows: seq<Row>, i: nat, emitted: set<Str>, room: nat, item: ListItem)
    requires i <= |rows| && item in Scan(rows, i, emitted, room).page
    ensures Shows(rows, i, item)
    decreases |rows| - i
  {
    var here := rows[i].item;
    if here.commonPrefix && here.value in emitted {
      ScanOnlyLater(rows, i + 1, emitted, room, item);
    } else if item != here {
      ScanOnlyLater(rows, i + 1, Emit(emitted, here), room - 1, item);
    }
  }

  /** Under a prefix that is contiguous from `i` on, the items are all that shows up. */
  lemma {:induction false} ItemsShow(rows: seq<Row>, i: nat, item: ListItem)
    requires i <= |rows|
    requires forall j, k | i <= j <= k < |rows| && rows[k].Listed? :: rows[j].Listed?
    ensures item in Items(rows, i) <==> Shows(rows, i, item)
    decreases |rows| - i
  {
    if More(rows, i) {
      var n := Next(rows, i);
      ItemsShow(rows, n, item);
      assert Shows(rows, i, item) <==> item == rows[i].item || Shows(rows, n, item) by {
        assert forall j | i <= j < n :: rows[j] == rows[i];
      }
    }
  }

  lemma NothingAsked(rows: seq<Row>, i: nat)
    requires i <= |rows|
    ensures Scan(rows, i, {}, 0) == Scanned([], i) && (Items(rows, i) == [] <==> !More(rows, i))
  {
  }

  /** Only rolled-up rows repeat. */
  ghost predicate PlainDistinct(rows: seq<Row>) {
    forall i, j | 0 <= i < j < |rows| && rows[i].Listed? && rows[i] == rows[j] :: rows[i].item.commonPrefix
  }

  /** Entries only remain after a full page. */
  lemma {:induction false} TruncatedIsFull(rows: seq<Row>, i: nat, emitted: set<Str>, room: nat)
    requires i <= |rows|
    ensures var r := Scan(rows, i, emitted, room); More(rows, r.stop) ==> |r.page| == room
    decreases |rows| - i
  {
    if room > 0 && More(rows, i) {
      var item := rows[i].item;
      if item.commonPrefix && item.value in emitted {
        TruncatedIsFull(rows, i + 1, emitted, room);
      } else {
        TruncatedIsFull(rows, i + 1, Emit(emitted, item), room - 1);
      }
    }
  }

  /** A full page stops right after the first entry of its last item. */
  ghost predicate EndsAtFirst(rows: seq<Row>, i: nat, emitted: set<Str>, r: Scanned) {
    && EndsWithEntry(rows, i, r)
    && (Last(r.page).commonPrefix ==> Last(r.page).value !in emitted)
    && forall j | i <= j < r.stop - 1 :: rows[j] != rows[r.stop - 1]
  }

  lemma {:induction false} FullPageEnds(rows: seq<Row>, i: nat, emitted: set<Str>, room: nat)
    requires PlainDistinct(rows) && i <= |rows| && room > 0 && |Scan(rows, i, emitted, room).page| == room
    ensures EndsAtFirst(rows, i, emitted, Scan(rows, i, emitted, room))
    decreases |rows| - i
  {
    var item := rows[i].item;
    if item.commonPrefix && item.value in emitted {
      FullPageEnds(rows, i + 1, emitted, room);
    } else if room > 1 {
      FullPageEnds(rows, i + 1, Emit(emitted, item), room - 1);
      LastOfCons(item, Scan(rows, i + 1, Emit(emitted, item), room - 1).page);
    } else {
      assert [item] + [] == [item];
    }
  }
}
