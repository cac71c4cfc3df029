// The conversion between the editor's days and the flat item rows kept in
// the database (src/lib/itineraryService.ts:43-109).

module Persistence {
  import opened Seqs
  import opened Itinerary

  /** A stored item row; its creation time is not modelled. */
  datatype Row = Row(id: string, itineraryId: string, dayDate: int,
                     time: string, event: string, location: string, sortOrder: int)

  /** A row as `dayDataToItems` writes it, before the database gives it an id. */
  datatype NewRow = NewRow(itineraryId: string, dayDate: int,
                           time: string, event: string, location: string, sortOrder: int)

  function ToItem(r: Row): DayItem {
    DayItem(r.id, r.time, r.event, r.location)
  }

  // ---------------------------------------------------------------------
  // itemsToDayData

  /** The items of the rows dated `d`, in row order. */
  function Placed(rows: seq<Row>, d: int): seq<DayItem>
    decreases |rows|
  {
    if rows == [] then []
    else (if rows[0].dayDate == d then [ToItem(rows[0])] else []) + Placed(rows[1..], d)
  }

  /** The sort key of an item: the `sort_order` of the first row with its id, 0 if none. */
  function KeyOf(rows: seq<Row>, id: string): int
    decreases |rows|
  {
    if rows == [] then 0
    else if rows[0].id == id then rows[0].sortOrder
    else KeyOf(rows[1..], id)
  }

  /**
   * What `KeyOf` finds: 0 when no row has the id, otherwise the `sort_order`
   * of the first row that has it. (A lemma rather than the function's own
   * contract, so that these quantifiers are not in scope wherever a key is.)
   */
  lemma {:induction false} KeyOfFirstRow(rows: seq<Row>, id: string)
    ensures (forall p :: 0 <= p < |rows| ==> rows[p].id != id) ==> KeyOf(rows, id) == 0
    ensures (exists p :: 0 <= p < |rows| && rows[p].id == id) ==>
      exists p :: 0 <= p < |rows| && rows[p].id == id && rows[p].sortOrder == KeyOf(rows, id)
                  && forall q :: 0 <= q < p ==> rows[q].id != id
    decreases |rows|
  {
    if rows != [] && rows[0].id != id {
      var tail := rows[1..];
      KeyOfFirstRow(tail, id);
      if forall p :: 0 <= p < |rows| ==> rows[p].id != id {
        assert forall p :: 0 <= p < |tail| ==> tail[p].id != id by {
          forall p | 0 <= p < |tail| ensures tail[p].id != id {
            assert tail[p] == rows[p + 1];
          }
        }
      }
      if exists p :: 0 <= p < |rows| && rows[p].id == id {
        var p :| 0 <= p < |rows| && rows[p].id == id;
        assert tail[p - 1] == rows[p];
        var j :| 0 <= j < |tail| && tail[j].id == id && tail[j].sortOrder == KeyOf(tail, id)
                 && forall q :: 0 <= q < j ==> tail[q].id != id;
        assert rows[j + 1] == tail[j];
        forall q | 0 <= q < j + 1 ensures rows[q].id != id {
          if q > 0 {
            assert rows[q] == tail[q - 1];
          }
        }
      }
    }
  }

  function SortKey(rows: seq<Row>): DayItem -> int {
    (item: DayItem) => KeyOf(rows, item.id)
  }

  /** One day of the result: exactly the items of the rows with its date, sorted by their sort key. */
  function DayOf(rows: seq<Row>, d: int): (r: DayData)
    ensures r.date == d
    ensures multiset(r.items) == multiset(Placed(rows, d))
    ensures SortedBy(r.items, SortKey(rows))
  {
    SortByKeyPermutes(Placed(rows, d), SortKey(rows));
    SortByKeySorted(Placed(rows, d), SortKey(rows));
    DayData(d, SortByKey(Placed(rows, d), SortKey(rows)))
  }

  /** The days `first` to `last` inclusive, in ascending order. */
  function DaysFrom(rows: seq<Row>, first: int, last: int): (r: seq<DayData>)
    ensures |r| == if first <= last then last - first + 1 else 0
    ensures forall k :: 0 <= k < |r| ==> r[k] == DayOf(rows, first + k)
  {
    seq(if first <= last then last - first + 1 else 0, k => DayOf(rows, first + k))
  }

  lemma DaysFromDates(rows: seq<Row>, first: int, last: int)
    ensures Consecutive(DaysFrom(rows, first, last), first)
    ensures SortedBy(DaysFrom(rows, first, last), DateKey)
  {
    var r := DaysFrom(rows, first, last);
    assert forall k :: 0 <= k < |r| ==> DateKey(r[k]) == first + k;
  }

  lemma DaysFromStep(rows: seq<Row>, first: int, last: int)
    requires first <= last
    ensures DaysFrom(rows, first, last) == [DayOf(rows, first)] + DaysFrom(rows, first + 1, last)
  {
    var a := DaysFrom(rows, first, last);
    var tail := DaysFrom(rows, first + 1, last);
    forall k | 0 <= k < |tail| ensures a[k + 1] == tail[k] {
      DaysFromShift(rows, first, last, k);
    }
    ConsPointwise(a, DayOf(rows, first), tail);
  }

  lemma DaysFromShift(rows: seq<Row>, first: int, last: int, k: nat)
    requires k < |DaysFrom(rows, first + 1, last)|
    ensures DaysFrom(rows, first, last)[k + 1] == DaysFrom(rows, first + 1, last)[k]
  {
    assert DaysFrom(rows, first, last)[k + 1] == DayOf(rows, first + (k + 1));
    assert first + (k + 1) == (first + 1) + k;
  }

  function DateKey(day: DayData): int {
    day.date
  }

  /**
   * `itemsToDayData`: one day per date from arrival to departure, each with
   * the items of its rows sorted by `sort_order`. The days come out of a map
   * filled in ascending date order, so the final sort by date leaves them
   * where they are (`DateSortKeepsOrder`).
   */
  function ItemsToDayData(rows: seq<Row>, arrival: int, departure: int): (r: seq<DayData>)
    ensures |r| == if arrival <= departure then departure - arrival + 1 else 0
    ensures Consecutive(r, arrival)
  {
    DaysFromDates(rows, arrival, departure);
    DaysFrom(rows, arrival, departure)
  }

  /** Sorting the days by date, as the last step does, changes nothing. */
  lemma DateSortKeepsOrder(rows: seq<Row>, arrival: int, departure: int)
    ensures SortByKey(ItemsToDayData(rows, arrival, departure), DateKey) == ItemsToDayData(rows, arrival, departure)
  {
    DaysFromDates(rows, arrival, departure);
    SortByKeyOfSorted(DaysFrom(rows, arrival, departure), DateKey);
  }

  lemma ItemsToDayDataAt(rows: seq<Row>, arrival: int, departure: int, k: nat)
    requires k < |ItemsToDayData(rows, arrival, departure)|
    ensures ItemsToDayData(rows, arrival, departure)[k] == DayOf(rows, arrival + k)
  {
  }

  lemma {:induction false} PlacedHas(rows: seq<Row>, d: int, x: DayItem)
    ensures x in Placed(rows, d) <==> exists p :: 0 <= p < |rows| && rows[p].dayDate == d && ToItem(rows[p]) == x
    decreases |rows|
  {
    if rows != [] {
      PlacedHas(rows[1..], d, x);
      if exists p :: 0 <= p < |rows| && rows[p].dayDate == d && ToItem(rows[p]) == x {
        var p :| 0 <= p < |rows| && rows[p].dayDate == d && ToItem(rows[p]) == x;
        if p > 0 {
          assert rows[1..][p - 1] == rows[p];
        }
      }
      if x in Placed(rows[1..], d) {
        var p :| 0 <= p < |rows[1..]| && rows[1..][p].dayDate == d && ToItem(rows[1..][p]) == x;
        assert rows[p + 1] == rows[1..][p];
      }
    }
  }

  /**
   * Where a row ends up: it has a day exactly when its date is in the range,
   * and then its item is among that day's items.
   */
  lemma RowLands(rows: seq<Row>, arrival: int, departure: int, p: nat)
    requires p < |rows|
    ensures var days := ItemsToDayData(rows, arrival, departure);
      && ((exists k :: 0 <= k < |days| && days[k].date == rows[p].dayDate)
          <==> arrival <= rows[p].dayDate <= departure)
      && (arrival <= rows[p].dayDate <= departure ==>
            ToItem(rows[p]) in days[rows[p].dayDate - arrival].items)
  {
    var days := ItemsToDayData(rows, arrival, departure);
    var d := rows[p].dayDate;
    if arrival <= d <= departure {
      var k := d - arrival;
      assert days[k].date == d;
      RowInItsDay(rows, arrival, departure, p);
    } else {
      forall k | 0 <= k < |days|
        ensures days[k].date != d
      {
        assert days[k].date == arrival + k;
      }
    }
  }

  lemma {:induction false} PlacedOfRow(rows: seq<Row>, d: int, p: nat)
    requires p < |rows| && rows[p].dayDate == d
    ensures ToItem(rows[p]) in Placed(rows, d)
    decreases |rows|
  {
    if p > 0 {
      assert rows[1..][p - 1] == rows[p];
      PlacedOfRow(rows[1..], d, p - 1);
    }
  }

  lemma RowInItsDay(rows: seq<Row>, arrival: int, departure: int, p: nat)
    requires p < |rows| && arrival <= rows[p].dayDate <= departure
    ensures ToItem(rows[p]) in ItemsToDayData(rows, arrival, departure)[rows[p].dayDate - arrival].items
  {
    var d := rows[p].dayDate;
    ItemsToDayDataAt(rows, arrival, departure, d - arrival);
    PlacedOfRow(rows, d, p);
    SortByKeyHas(Placed(rows, d), SortKey(rows), ToItem(rows[p]));
  }

  lemma RowOfPlaced(rows: seq<Row>, d: int, x: DayItem) returns (p: nat)
    requires x in Placed(rows, d)
    ensures p < |rows| && rows[p].dayDate == d && ToItem(rows[p]) == x
  {
    PlacedHas(rows, d, x);
    p :| 0 <= p < |rows| && rows[p].dayDate == d && ToItem(rows[p]) == x;
  }

  /** Every item of a day comes from a row with that day's date. */
  lemma DayItemsFromRows(rows: seq<Row>, arrival: int, departure: int, k: nat, x: DayItem)
    requires k < |ItemsToDayData(rows, arrival, departure)|
    requires x in ItemsToDayData(rows, arrival, departure)[k].items
    ensures exists p :: 0 <= p < |rows| && rows[p].dayDate == arrival + k && ToItem(rows[p]) == x
  {
    DayItemSorted(rows, arrival, departure, k, x);
    SortedItemRow(rows, arrival + k, x);
  }

  lemma DayItemSorted(rows: seq<Row>, arrival: int, departure: int, k: nat, x: DayItem)
    requires k < |ItemsToDayData(rows, arrival, departure)|
    requires x in ItemsToDayData(rows, arrival, departure)[k].items
    ensures x in DayOf(rows, arrival + k).items
  {
    ItemsToDayDataAt(rows, arrival, departure, k);
  }

  lemma SortedItemRow(rows: seq<Row>, d: int, x: DayItem)
    requires x in DayOf(rows, d).items
    ensures exists p :: 0 <= p < |rows| && rows[p].dayDate == d && ToItem(rows[p]) == x
  {
    SortByKeyHas(Placed(rows, d), SortKey(rows), x);
    PlacedHas(rows, d, x);
  }

  /**
   * Within a day the items are in non-decreasing key order, and items with
   * equal keys keep the order of their rows.
   */
  lemma DaySortedStable(rows: seq<Row>, arrival: int, departure: int, k: nat, key: int)
    requires k < |ItemsToDayData(rows, arrival, departure)|
    ensures var items := ItemsToDayData(rows, arrival, departure)[k].items;
      && SortedBy(items, SortKey(rows))
      && WithKey(items, SortKey(rows), key) == WithKey(Placed(rows, arrival + k), SortKey(rows), key)
  {
    ItemsToDayDataAt(rows, arrival, departure, k);
    SortByKeySorted(Placed(rows, arrival + k), SortKey(rows));
    SortByKeyStable(Placed(rows, arrival + k), SortKey(rows), key);
  }

  /** The number of rows dated between `lo` and `hi` inclusive. */
  function CountInRange(rows: seq<Row>, lo: int, hi: int): nat
    decreases |rows|
  {
    if rows == [] then 0
    else (if lo <= rows[0].dayDate <= hi then 1 else 0) + CountInRange(rows[1..], lo, hi)
  }

  lemma {:induction false} CountSplit(rows: seq<Row>, lo: int, hi: int)
    requires lo <= hi
    ensures CountInRange(rows, lo, hi) == |Placed(rows, lo)| + CountInRange(rows, lo + 1, hi)
    decreases |rows|
  {
    if rows != [] {
      CountSplit(rows[1..], lo, hi);
    }
  }

  lemma {:induction false} CountEmpty(rows: seq<Row>, lo: int, hi: int)
    requires lo > hi
    ensures CountInRange(rows, lo, hi) == 0
    decreases |rows|
  {
    if rows != [] {
      CountEmpty(rows[1..], lo, hi);
    }
  }

  lemma {:induction false} DaysFromCount(rows: seq<Row>, first: int, last: int)
    ensures ItemCount(DaysFrom(rows, first, last)) == CountInRange(rows, first, last)
    decreases last - first + 1
  {
    if first > last {
      CountEmpty(rows, first, last);
    } else {
      var head := DayOf(rows, first);
      var rest := DaysFrom(rows, first + 1, last);
      DaysFromStep(rows, first, last);
      DaysFromCount(rows, first + 1, last);
      ItemCountConcat([head], rest);
      assert [head][..0] == [];
      CountSplit(rows, first, last);
    }
  }

  /** No row is lost or duplicated: the days hold exactly the rows dated in range. */
  lemma TotalItems(rows: seq<Row>, arrival: int, departure: int)
    ensures ItemCount(ItemsToDayData(rows, arrival, departure)) == CountInRange(rows, arrival, departure)
  {
    DaysFromCount(rows, arrival, departure);
  }

  // ---------------------------------------------------------------------
  // dayDataToItems

  /** The rows of one day, numbered from 0 in item order. */
  function DayRows(day: DayData, itineraryId: string): seq<NewRow> {
    seq(|day.items|, i requires 0 <= i < |day.items| =>
      NewRow(itineraryId, day.date, day.items[i].time, day.items[i].event, day.items[i].location, i))
  }

  /** `dayDataToItems`: the days' rows, day after day. */
  function DayDataToItems(days: seq<DayData>, itineraryId: string): (r: seq<NewRow>)
    ensures |r| == ItemCount(days)
    ensures forall p :: 0 <= p < |r| ==> r[p].itineraryId == itineraryId
    decreases |days|
  {
    if days == [] then []
    else DayDataToItems(days[..|days| - 1], itineraryId) + DayRows(days[|days| - 1], itineraryId)
  }

  lemma {:induction false} DayDataToItemsConcat(a: seq<DayData>, b: seq<DayData>, itineraryId: string)
    ensures DayDataToItems(a + b, itineraryId) == DayDataToItems(a, itineraryId) + DayDataToItems(b, itineraryId)
    decreases |b|
  {
    if b == [] {
      assert a + b == a;
    } else {
      assert (a + b)[..|a + b| - 1] == a + b[..|b| - 1];
      DayDataToItemsConcat(a, b[..|b| - 1], itineraryId);
    }
  }

  lemma DayDataToItemsSplit(days: seq<DayData>, itineraryId: string, k: nat)
    requires k < |days|
    ensures DayDataToItems(days, itineraryId)
         == DayDataToItems(days[..k], itineraryId) + DayRows(days[k], itineraryId)
            + DayDataToItems(days[k + 1..], itineraryId)
  {
    assert days == days[..k] + [days[k]] + days[k + 1..];
    DayDataToItemsConcat(days[..k] + [days[k]], days[k + 1..], itineraryId);
    DayDataToItemsConcat(days[..k], [days[k]], itineraryId);
    assert [days[k]][..0] == [];
  }

  /**
   * Row order is day order, then item order: item `i` of day `k` is the row
   * after all rows of the earlier days, its fields copied and numbered `i`.
   */
  lemma DayDataToItemsAt(days: seq<DayData>, itineraryId: string, k: nat, i: nat)
    requires k < |days| && i < |days[k].items|
    ensures var r := DayDataToItems(days, itineraryId);
      var item := days[k].items[i];
      && ItemCount(days[..k]) + i < |r|
      && r[ItemCount(days[..k]) + i]
         == NewRow(itineraryId, days[k].date, item.time, item.event, item.location, i)
  {
    DayDataToItemsSplit(days, itineraryId, k);
  }

  // ---------------------------------------------------------------------
  // Round trip through the database

  /** The rows as the database stores them, each given the next id of `ids`. */
  function Store(rows: seq<NewRow>, ids: seq<string>): seq<Row>
    requires |ids| == |rows|
  {
    seq(|rows|, p requires 0 <= p < |rows| =>
      Row(ids[p], rows[p].itineraryId, rows[p].dayDate, rows[p].time, rows[p].event, rows[p].location, rows[p].sortOrder))
  }

  predicate Distinct(ids: seq<string>) {
    forall p, q :: 0 <= p < q < |ids| ==> ids[p] != ids[q]
  }

  lemma StoreConcat(u: seq<NewRow>, v: seq<NewRow>, ids: seq<string>)
    requires |ids| == |u| + |v|
    ensures Store(u + v, ids) == Store(u, ids[..|u|]) + Store(v, ids[|u|..])
  {
  }

  lemma {:induction false} PlacedConcat(a: seq<Row>, b: seq<Row>, d: int)
    ensures Placed(a + b, d) == Placed(a, d) + Placed(b, d)
    decreases |a|
  {
    if a == [] {
      assert a + b == b;
    } else {
      var head := if a[0].dayDate == d then [ToItem(a[0])] else [];
      assert (a + b)[0] == a[0] && (a + b)[1..] == a[1..] + b;
      assert Placed(a + b, d) == head + Placed(a[1..] + b, d);
      PlacedConcat(a[1..], b, d);
      assert Placed(a, d) == head + Placed(a[1..], d);
    }
  }

  lemma {:induction false} PlacedNone(rows: seq<Row>, d: int)
    requires forall p :: 0 <= p < |rows| ==> rows[p].dayDate != d
    ensures Placed(rows, d) == []
    decreases |rows|
  {
    if rows != [] {
      PlacedNone(rows[1..], d);
    }
  }

  lemma {:induction false} PlacedAll(rows: seq<Row>, d: int)
    requires forall p :: 0 <= p < |rows| ==> rows[p].dayDate == d
    ensures |Placed(rows, d)| == |rows|
    ensures forall p :: 0 <= p < |rows| ==> Placed(rows, d)[p] == ToItem(rows[p])
    decreases |rows|
  {
    if rows != [] {
      PlacedAll(rows[1..], d);
      assert forall p :: 1 <= p < |rows| ==> rows[1..][p - 1] == rows[p];
    }
  }

  lemma {:induction false} DatesWithin(days: seq<DayData>, itineraryId: string, lo: int, hi: int)
    requires forall k :: 0 <= k < |days| ==> lo <= days[k].date <= hi
    ensures forall p :: 0 <= p < |DayDataToItems(days, itineraryId)| ==>
      lo <= DayDataToItems(days, itineraryId)[p].dayDate <= hi
    decreases |days|
  {
    if days != [] {
      DatesWithin(days[..|days| - 1], itineraryId, lo, hi);
    }
  }

  lemma {:induction false} KeyOfDistinct(rows: seq<Row>, p: nat)
    requires p < |rows|
    requires forall a, b :: 0 <= a < b < |rows| ==> rows[a].id != rows[b].id
    ensures KeyOf(rows, rows[p].id) == rows[p].sortOrder
    decreases |rows|
  {
    if p > 0 {
      assert rows[1..][p - 1] == rows[p];
      KeyOfDistinct(rows[1..], p - 1);
    }
  }

  lemma MiddleAt<T>(u: seq<T>, v: seq<T>, w: seq<T>, i: nat)
    requires i < |v|
    ensures (u + v + w)[|u| + i] == v[i]
  {
  }

  /**
   * The stored rows cut in three: the rows of the days before day `k`, all
   * dated earlier; day `k`'s own rows, numbered from 0; the rows of the
   * later days, all dated later.
   */
  lemma StoredBlocks(days: seq<DayData>, itineraryId: string, ids: seq<string>, arrival: int, k: nat)
    returns (ra: seq<Row>, rb: seq<Row>, rc: seq<Row>)
    requires Consecutive(days, arrival)
    requires k < |days|
    requires |ids| == ItemCount(days)
    ensures Store(DayDataToItems(days, itineraryId), ids) == ra + rb + rc
    ensures forall p :: 0 <= p < |ra| ==> ra[p].dayDate != arrival + k
    ensures forall p :: 0 <= p < |rc| ==> rc[p].dayDate != arrival + k
    ensures |rb| == |days[k].items|
    ensures forall i :: 0 <= i < |rb| ==>
      && rb[i].dayDate == arrival + k
      && rb[i].sortOrder == i
      && EntryOf(ToItem(rb[i])) == EntryOf(days[k].items[i])
  {
    var x := days[k];
    var a := DayDataToItems(days[..k], itineraryId);
    var b := DayRows(x, itineraryId);
    var c := DayDataToItems(days[k + 1..], itineraryId);
    DayDataToItemsSplit(days, itineraryId, k);
    ra := Store(a, ids[..|a|]);
    rb := Store(b, ids[|a|..|a| + |b|]);
    rc := Store(c, ids[|a| + |b|..]);
    StoreConcat(a + b, c, ids);
    StoreConcat(a, b, ids[..|a| + |b|]);
    assert ids[..|a| + |b|][..|a|] == ids[..|a|];
    assert ids[..|a| + |b|][|a|..] == ids[|a|..|a| + |b|];
    DatesWithin(days[..k], itineraryId, arrival, arrival + k - 1);
    DatesWithin(days[k + 1..], itineraryId, arrival + k + 1, arrival + |days|);
    assert x.date == arrival + k;
  }

  /**
   * After storing, the rows dated like day `k` are exactly that day's rows: a
   * block starting at `start`, numbered from 0, with the day's entries.
   */
  lemma StoredDay(days: seq<DayData>, itineraryId: string, ids: seq<string>, arrival: int, k: nat)
    returns (start: nat)
    requires Consecutive(days, arrival)
    requires k < |days|
    requires |ids| == ItemCount(days)
    ensures var rows := Store(DayDataToItems(days, itineraryId), ids);
      var placed := Placed(rows, arrival + k);
      && |placed| == |days[k].items|
      && start + |placed| <= |rows|
      && forall i :: 0 <= i < |placed| ==>
           && placed[i] == ToItem(rows[start + i])
           && rows[start + i].sortOrder == i
           && EntryOf(placed[i]) == EntryOf(days[k].items[i])
  {
    var ra, rb, rc := StoredBlocks(days, itineraryId, ids, arrival, k);
    var d := arrival + k;
    PlacedOfBlocks(ra, rb, rc, d);
    PlacedAll(rb, d);
    start := |ra|;
    forall i | 0 <= i < |rb| ensures (ra + rb + rc)[start + i] == rb[i] {
      MiddleAt(ra, rb, rc, i);
    }
  }

  /** Only a middle block carrying date `d` contributes to that day. */
  lemma PlacedOfBlocks(ra: seq<Row>, rb: seq<Row>, rc: seq<Row>, d: int)
    requires forall p :: 0 <= p < |ra| ==> ra[p].dayDate != d
    requires forall p :: 0 <= p < |rc| ==> rc[p].dayDate != d
    ensures Placed(ra + rb + rc, d) == Placed(rb, d)
  {
    PlacedNone(ra, d);
    PlacedNone(rc, d);
    PlacedConcat(ra + rb, rc, d);
    PlacedConcat(ra, rb, d);
    assert Placed(rb, d) + [] == Placed(rb, d);
  }

  /** The stored rows of one day come back as that day's items, in order. */
  lemma RoundTripDay(days: seq<DayData>, itineraryId: string, ids: seq<string>, arrival: int, k: nat)
    requires Consecutive(days, arrival)
    requires k < |days|
    requires |ids| == ItemCount(days) && Distinct(ids)
    ensures var rows := Store(DayDataToItems(days, itineraryId), ids);
      Entries(DayOf(rows, arrival + k).items) == Entries(days[k].items)
  {
    var rows := Store(DayDataToItems(days, itineraryId), ids);
    var start := StoredDay(days, itineraryId, ids, arrival, k);
    var placed := Placed(rows, arrival + k);
    assert forall a, b :: 0 <= a < b < |rows| ==> rows[a].id != rows[b].id;
    forall i | 0 <= i < |placed|
      ensures SortKey(rows)(placed[i]) == i
    {
      KeyOfDistinct(rows, start + i);
    }
    SortByKeyOfSorted(placed, SortKey(rows));
    assert Entries(placed) == Entries(days[k].items);
  }

  /**
   * Saving the days and loading them back gives every day its items again,
   * same entries in the same order, when the days are exactly the range
   * from arrival to departure and the database gives distinct ids.
   */
  lemma RoundTrip(days: seq<DayData>, itineraryId: string, ids: seq<string>, arrival: int, departure: int)
    requires Consecutive(days, arrival) && |days| == departure - arrival + 1
    requires |ids| == ItemCount(days) && Distinct(ids)
    ensures var back := ItemsToDayData(Store(DayDataToItems(days, itineraryId), ids), arrival, departure);
      && |back| == |days|
      && forall k :: 0 <= k < |days| ==>
           back[k].date == days[k].date && Entries(back[k].items) == Entries(days[k].items)
  {
    var rows := Store(DayDataToItems(days, itineraryId), ids);
    forall k | 0 <= k < |days|
      ensures ItemsToDayData(rows, arrival, departure)[k].date == days[k].date
      ensures Entries(ItemsToDayData(rows, arrival, departure)[k].items) == Entries(days[k].items)
    {
      ItemsToDayDataAt(rows, arrival, departure, k);
      RoundTripDay(days, itineraryId, ids, arrival, k);
    }
  }
}
