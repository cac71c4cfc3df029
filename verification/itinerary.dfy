// The editor's data: an itinerary is a list of days, each with its dated
// list of items (src/lib/itineraryService.ts:3-13). Dates are whole day
// numbers; consecutive calendar days are consecutive integers.

module Itinerary {

  datatype DayItem = DayItem(id: string, time: string, event: string, location: string)

  datatype DayData = DayData(date: int, items: seq<DayItem>)

  /** What the user entered for an item, without its identifier. */
  datatype Entry = Entry(time: string, event: string, location: string)

  function EntryOf(item: DayItem): Entry {
    Entry(item.time, item.event, item.location)
  }

  function Entries(items: seq<DayItem>): (r: seq<Entry>)
    ensures |r| == |items|
    ensures forall i :: 0 <= i < |items| ==> r[i] == EntryOf(items[i])
  {
    seq(|items|, i requires 0 <= i < |items| => EntryOf(items[i]))
  }

  /** The days are one per date, starting at `first`, without gaps. */
  predicate Consecutive(days: seq<DayData>, first: int) {
    forall k :: 0 <= k < |days| ==> days[k].date == first + k
  }

  /** The number of items over all days. */
  function ItemCount(days: seq<DayData>): nat
    decreases |days|
  {
    if days == [] then 0
    else ItemCount(days[..|days| - 1]) + |days[|days| - 1].items|
  }

  lemma {:induction false} ItemCountConcat(a: seq<DayData>, b: seq<DayData>)
    ensures ItemCount(a + b) == ItemCount(a) + ItemCount(b)
    decreases |b|
  {
    if b == [] {
      assert a + b == a;
    } else {
      assert (a + b)[..|a + b| - 1] == a + b[..|b| - 1];
      ItemCountConcat(a, b[..|b| - 1]);
    }
  }
}
