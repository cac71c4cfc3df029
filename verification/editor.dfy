// The itinerary editor's state changes (src/components/ItineraryEditor.tsx):
// item list edits, reordering and drag-and-drop, the day list that follows
// the arrival and departure dates, and the read-only guard.

module Editor {
  import opened Wrappers
  import opened Seqs
  import opened Itinerary

  /** The part of the editor's state the operations touch. */
  datatype State = State(readOnly: bool, arrival: Option<int>, departure: Option<int>, days: seq<DayData>)

  /** The state with day `d` holding `items`, everything else as before. */
  function WithItems(st: State, d: nat, items: seq<DayItem>): (r: State)
    requires d < |st.days|
    ensures r.readOnly == st.readOnly && r.arrival == st.arrival && r.departure == st.departure
    ensures |r.days| == |st.days| && r.days[d] == DayData(st.days[d].date, items)
    ensures forall j :: 0 <= j < |st.days| && j != d ==> r.days[j] == st.days[j]
  {
    st.(days := st.days[d := st.days[d].(items := items)])
  }

  /** Only day `d`'s items may differ between the two states. */
  predicate OnlyItemsOf(st: State, r: State, d: nat)
    requires d < |st.days|
  {
    && r.readOnly == st.readOnly && r.arrival == st.arrival && r.departure == st.departure
    && |r.days| == |st.days| && r.days[d].date == st.days[d].date
    && forall j :: 0 <= j < |st.days| && j != d ==> r.days[j] == st.days[j]
  }

  // ---------------------------------------------------------------------
  // Adding, removing and editing items

  /** `addDayItem`: a blank item with the fresh id `newId` at the end of day `d`. */
  function AddDayItem(st: State, d: nat, newId: string): (r: State)
    requires d < |st.days|
    ensures st.readOnly ==> r == st
    ensures !st.readOnly ==>
      && OnlyItemsOf(st, r, d)
      && |r.days[d].items| == |st.days[d].items| + 1
      && r.days[d].items[..|st.days[d].items|] == st.days[d].items
      && r.days[d].items[|st.days[d].items|] == DayItem(newId, "", "", "")
  {
    if st.readOnly then st
    else
      var items := st.days[d].items + [DayItem(newId, "", "", "")];
      assert items[..|st.days[d].items|] == st.days[d].items;
      WithItems(st, d, items)
  }

  /** The items without those whose id is `id`, in their order. */
  function Without(items: seq<DayItem>, id: string): (r: seq<DayItem>)
    ensures forall x :: x in r <==> x in items && x.id != id
    ensures |r| <= |items|
    decreases |items|
  {
    if items == [] then []
    else (if items[0].id == id then [] else [items[0]]) + Without(items[1..], id)
  }

  predicate HasId(items: seq<DayItem>, id: string) {
    exists i :: 0 <= i < |items| && items[i].id == id
  }

  lemma {:induction false} WithoutAbsent(items: seq<DayItem>, id: string)
    requires !HasId(items, id)
    ensures Without(items, id) == items
    decreases |items|
  {
    if items != [] {
      forall i | 0 <= i < |items[1..]|
        ensures items[1..][i].id != id
      {
        assert items[1..][i] == items[i + 1];
      }
      WithoutAbsent(items[1..], id);
      assert items == [items[0]] + items[1..];
    }
  }

  lemma {:induction false} WithoutConcat(a: seq<DayItem>, b: seq<DayItem>, id: string)
    ensures Without(a + b, id) == Without(a, id) + Without(b, id)
    decreases |a|
  {
    if a == [] {
      assert a + b == b;
    } else {
      assert (a + b)[1..] == a[1..] + b;
      WithoutConcat(a[1..], b, id);
    }
  }

  /** `removeDayItem`: day `d` loses exactly the items with id `id`, and keeps the rest in order. */
  function RemoveDayItem(st: State, d: nat, id: string): (r: State)
    requires d < |st.days|
    ensures st.readOnly ==> r == st
    ensures !st.readOnly ==>
      && OnlyItemsOf(st, r, d)
      && r.days[d].items == Without(st.days[d].items, id)
      && (forall x :: x in r.days[d].items <==> x in st.days[d].items && x.id != id)
      && !HasId(r.days[d].items, id)
  {
    if st.readOnly then st
    else
      var kept := Without(st.days[d].items, id);
      forall i | 0 <= i < |kept|
        ensures kept[i].id != id
      {
        assert kept[i] in kept;
      }
      WithItems(st, d, kept)
  }

  /** Removing twice is removing once. */
  lemma RemoveTwice(st: State, d: nat, id: string)
    requires d < |st.days|
    ensures RemoveDayItem(RemoveDayItem(st, d, id), d, id) == RemoveDayItem(st, d, id)
  {
    if !st.readOnly {
      var once := RemoveDayItem(st, d, id);
      WithoutAbsent(once.days[d].items, id);
      assert once.days[d := once.days[d]] == once.days;
    }
  }

  /** Removing a freshly added item restores the state. */
  lemma RemoveAfterAdd(st: State, d: nat, newId: string)
    requires d < |st.days|
    requires !HasId(st.days[d].items, newId)
    ensures RemoveDayItem(AddDayItem(st, d, newId), d, newId) == st
  {
    if !st.readOnly {
      var items := st.days[d].items;
      var blank := DayItem(newId, "", "", "");
      var added := AddDayItem(st, d, newId);
      assert added.days[d].items == items + [blank];
      WithoutConcat(items, [blank], newId);
      WithoutAbsent(items, newId);
      assert Without([blank], newId) == [] + Without([], newId);
      assert Without(items + [blank], newId) == items;
      var back := RemoveDayItem(added, d, newId);
      assert back.days[d] == st.days[d];
      assert back.days == st.days;
    }
  }

  /** The item fields `updateDayItem` can set. */
  datatype Field = Id | Time | Event | Location

  function Get(item: DayItem, f: Field): string {
    match f
    case Id => item.id
    case Time => item.time
    case Event => item.event
    case Location => item.location
  }

  function Set(item: DayItem, f: Field, value: string): (r: DayItem)
    ensures Get(r, f) == value
    ensures forall g :: g != f ==> Get(r, g) == Get(item, g)
  {
    match f
    case Id => item.(id := value)
    case Time => item.(time := value)
    case Event => item.(event := value)
    case Location => item.(location := value)
  }

  /** Setting a field to the value it has changes nothing. */
  lemma SetUnchanged(item: DayItem, f: Field)
    ensures Set(item, f, Get(item, f)) == item
  {
  }

  /** The index of the first item with id `id`, if any (`Array.prototype.find`). */
  function FindId(items: seq<DayItem>, id: string): (r: Option<nat>)
    ensures r.None? <==> !HasId(items, id)
    ensures r.Some? ==>
      && r.value < |items| && items[r.value].id == id
      && forall j :: 0 <= j < r.value ==> items[j].id != id
    decreases |items|
  {
    if items == [] then None
    else if items[0].id == id then Some(0)
    else
      var rest := FindId(items[1..], id);
      assert HasId(items, id) ==> HasId(items[1..], id) by {
        if HasId(items, id) {
          var i :| 0 <= i < |items| && items[i].id == id;
          assert items[1..][i - 1] == items[i];
        }
      }
      match rest
      case None => None
      case Some(i) => Some(i + 1)
  }

  /**
   * `updateDayItem`: the first item of day `d` with id `id` gets `value` in
   * field `f`; nothing happens when no item has that id.
   */
  function UpdateDayItem(st: State, d: nat, id: string, f: Field, value: string): (r: State)
    requires d < |st.days|
    ensures st.readOnly || !HasId(st.days[d].items, id) ==> r == st
    ensures !st.readOnly && HasId(st.days[d].items, id) ==>
      var items := st.days[d].items;
      var i := FindId(items, id).value;
      && OnlyItemsOf(st, r, d)
      && |r.days[d].items| == |items|
      && Get(r.days[d].items[i], f) == value
      && (forall g :: g != f ==> Get(r.days[d].items[i], g) == Get(items[i], g))
      && (forall j :: 0 <= j < |items| && j != i ==> r.days[d].items[j] == items[j])
  {
    if st.readOnly then st
    else
      match FindId(st.days[d].items, id)
      case None => st
      case Some(i) =>
        var items := st.days[d].items;
        WithItems(st, d, items[i := Set(items[i], f, value)])
  }

  // ---------------------------------------------------------------------
  // Reordering

  /** `reorderDayItems`: move item `from` of day `d` to index `to`. */
  function ReorderDayItems(st: State, d: nat, from: nat, to: nat): (r: State)
    requires d < |st.days| && from < |st.days[d].items|
    ensures st.readOnly ==> r == st
    ensures !st.readOnly ==>
      var items := st.days[d].items;
      var at := Min(to, |items| - 1);
      && OnlyItemsOf(st, r, d)
      && |r.days[d].items| == |items|
      && multiset(r.days[d].items) == multiset(items)
      && r.days[d].items[at] == items[from]
      && RemoveAt(r.days[d].items, at) == RemoveAt(items, from)
  {
    if st.readOnly then st
    else WithItems(st, d, Reorder(st.days[d].items, from, to))
  }

  /** `moveItemUp`: exchange item `i` with the one above it, if there is one. */
  function MoveItemUp(st: State, d: nat, i: nat): (r: State)
    requires d < |st.days| && i < |st.days[d].items|
    ensures st.readOnly || i == 0 ==> r == st
    ensures !st.readOnly && i > 0 ==>
      OnlyItemsOf(st, r, d) && r.days[d].items == Swap(st.days[d].items, i - 1, i)
  {
    if st.readOnly then st
    else if i > 0 then
      ReorderNeighbour(st.days[d].items, i - 1);
      ReorderDayItems(st, d, i, i - 1)
    else st
  }

  /** `moveItemDown`: exchange item `i` with the one below it, if there is one. */
  function MoveItemDown(st: State, d: nat, i: nat): (r: State)
    requires d < |st.days| && i < |st.days[d].items|
    ensures st.readOnly || i == |st.days[d].items| - 1 ==> r == st
    ensures !st.readOnly && i < |st.days[d].items| - 1 ==>
      OnlyItemsOf(st, r, d) && r.days[d].items == Swap(st.days[d].items, i, i + 1)
  {
    if st.readOnly then st
    else if i < |st.days[d].items| - 1 then
      ReorderNeighbour(st.days[d].items, i);
      ReorderDayItems(st, d, i, i + 1)
    else st
  }

  /** Moving an item down and then up again restores the state. */
  lemma DownThenUp(st: State, d: nat, i: nat)
    requires d < |st.days| && i + 1 < |st.days[d].items|
    ensures MoveItemUp(MoveItemDown(st, d, i), d, i + 1) == st
  {
    if !st.readOnly {
      var items := st.days[d].items;
      var down := MoveItemDown(st, d, i);
      assert Swap(Swap(items, i, i + 1), i, i + 1) == items;
      assert st.days[d := st.days[d].(items := items)] == st.days;
    }
  }

  /**
   * The index handed to the reorder when the item at `dragged` is dropped on
   * the top (`top`) or bottom half of row `row`.
   */
  function DropIndex(dragged: nat, row: nat, top: bool): (t: nat)
    ensures t <= row + 1
    ensures dragged != row ==>
      var rowAfterRemoval := if dragged < row then row - 1 else row;
      t == if top then rowAfterRemoval else rowAfterRemoval + 1
  {
    var target := if top then row else row + 1;
    if dragged < target then target - 1 else target
  }

  /**
   * Dropping on another row of the same day puts the dragged item right
   * above that row's item (top half) or right below it (bottom half).
   */
  lemma DropPlacement<T>(items: seq<T>, dragged: nat, row: nat, top: bool)
    requires dragged < |items| && row < |items| && dragged != row
    ensures var t := DropIndex(dragged, row, top);
      var r := Reorder(items, dragged, t);
      && t < |items|
      && r[t] == items[dragged]
      && (top ==> t + 1 < |r| && r[t + 1] == items[row])
      && (!top ==> t > 0 && r[t - 1] == items[row])
  {
    var t := DropIndex(dragged, row, top);
    var rest := RemoveAt(items, dragged);
    assert Reorder(items, dragged, t) == InsertAt(rest, t, items[dragged]);
  }

  /** Dropping an item on its own row leaves the list as it is. */
  lemma DropOnItself<T>(items: seq<T>, i: nat, top: bool)
    requires i < |items|
    ensures DropIndex(i, i, top) == i
    ensures Reorder(items, i, DropIndex(i, i, top)) == items
  {
    ReorderInPlace(items, i);
  }

  // ---------------------------------------------------------------------
  // Days following the date range

  /** The items of the first day of `prev` dated `date`, or none. */
  function ExistingItems(prev: seq<DayData>, date: int): (r: seq<DayItem>)
    ensures (forall j :: 0 <= j < |prev| ==> prev[j].date != date) ==> r == []
    decreases |prev|
  {
    if prev == [] then []
    else if prev[0].date == date then prev[0].items
    else ExistingItems(prev[1..], date)
  }

  lemma {:induction false} ExistingItemsOfFirst(prev: seq<DayData>, j: nat)
    requires j < |prev|
    requires forall i :: 0 <= i < j ==> prev[i].date != prev[j].date
    ensures ExistingItems(prev, prev[j].date) == prev[j].items
    decreases |prev|
  {
    if j > 0 {
      assert prev[1..][j - 1] == prev[j];
      ExistingItemsOfFirst(prev[1..], j - 1);
    }
  }

  /** A fresh day list: one day per date, reusing the items already there. */
  function Regenerate(prev: seq<DayData>, arrival: int, departure: int): (r: seq<DayData>)
    requires arrival <= departure
    ensures |r| == departure - arrival + 1
    ensures Consecutive(r, arrival)
    ensures forall k :: 0 <= k < |r| ==> r[k].items == ExistingItems(prev, arrival + k)
  {
    seq(departure - arrival + 1, k => DayData(arrival + k, ExistingItems(prev, arrival + k)))
  }

  predicate ValidRange(arrival: Option<int>, departure: Option<int>) {
    arrival.Some? && departure.Some? && arrival.value <= departure.value
  }

  /** The day list already spans the range: right length, right first and last dates. */
  predicate Spans(prev: seq<DayData>, arrival: int, departure: int) {
    |prev| == departure - arrival + 1 && |prev| > 0
    && prev[0].date == arrival && prev[|prev| - 1].date == departure
  }

  /**
   * The day-generation effect: no days without a valid range; the previous
   * list when it already spans the range; otherwise a regenerated list.
   */
  function GenerateDays(prev: seq<DayData>, arrival: Option<int>, departure: Option<int>): (r: seq<DayData>)
    ensures r == [] <==> !ValidRange(arrival, departure)
    ensures ValidRange(arrival, departure) ==>
      Spans(r, arrival.value, departure.value)
      && (Spans(prev, arrival.value, departure.value) ==> r == prev)
      && (!Spans(prev, arrival.value, departure.value) ==> r == Regenerate(prev, arrival.value, departure.value))
  {
    if !ValidRange(arrival, departure) then []
    else if Spans(prev, arrival.value, departure.value) then prev
    else Regenerate(prev, arrival.value, departure.value)
  }

  /** A day list that is already the consecutive range regenerates to itself. */
  lemma RegenerateConsecutive(prev: seq<DayData>, arrival: int, departure: int)
    requires arrival <= departure
    requires Consecutive(prev, arrival) && |prev| == departure - arrival + 1
    ensures Regenerate(prev, arrival, departure) == prev
  {
    var r := Regenerate(prev, arrival, departure);
    forall k | 0 <= k < |prev|
      ensures r[k] == prev[k]
    {
      assert prev[k].date == arrival + k;
      assert forall i :: 0 <= i < k ==> prev[i].date == arrival + i;
      ExistingItemsOfFirst(prev, k);
    }
  }

  /**
   * Keeping the previous list is what regenerating would give when that
   * list is the consecutive range; generating twice is generating once.
   */
  lemma GenerateSettles(prev: seq<DayData>, arrival: Option<int>, departure: Option<int>)
    ensures (ValidRange(arrival, departure) && Consecutive(prev, arrival.value)
             && |prev| == departure.value - arrival.value + 1) ==>
      GenerateDays(prev, arrival, departure) == Regenerate(prev, arrival.value, departure.value)
    ensures GenerateDays(GenerateDays(prev, arrival, departure), arrival, departure)
         == GenerateDays(prev, arrival, departure)
  {
    if ValidRange(arrival, departure) && Consecutive(prev, arrival.value)
      && |prev| == departure.value - arrival.value + 1 {
      RegenerateConsecutive(prev, arrival.value, departure.value);
    }
  }

  /** A day of the previous list whose date is in range keeps its items. */
  lemma GenerateKeepsItems(prev: seq<DayData>, arrival: int, departure: int, j: nat)
    requires arrival <= departure
    requires j < |prev| && arrival <= prev[j].date <= departure
    requires forall i :: 0 <= i < j ==> prev[i].date != prev[j].date
    ensures var r := GenerateDays(prev, Some(arrival), Some(departure));
      exists k :: 0 <= k < |r| && r[k] == prev[j]
  {
    var r := GenerateDays(prev, Some(arrival), Some(departure));
    if !Spans(prev, arrival, departure) {
      var k := prev[j].date - arrival;
      ExistingItemsOfFirst(prev, j);
      assert r[k] == prev[j];
    }
  }

  // ---------------------------------------------------------------------
  // Date pickers

  /** `handleArrivalDateChange`: clears the days when the range is missing or inverted. */
  function ArrivalChanged(st: State, date: Option<int>): (r: State)
    ensures st.readOnly ==> r == st
    ensures !st.readOnly ==>
      && r.arrival == date && r.departure == st.departure && r.readOnly == st.readOnly
      && (r.days == [] || r.days == st.days)
      && (!ValidRange(date, st.departure) ==> r.days == [])
      && (ValidRange(date, st.departure) ==> r.days == st.days)
  {
    if st.readOnly then st
    else if date.None? || st.departure.None? || date.value > st.departure.value then
      st.(arrival := date, days := [])
    else st.(arrival := date)
  }

  /** `handleDepartureDateChange`: the same, for the departure date. */
  function DepartureChanged(st: State, date: Option<int>): (r: State)
    ensures st.readOnly ==> r == st
    ensures !st.readOnly ==>
      && r.departure == date && r.arrival == st.arrival && r.readOnly == st.readOnly
      && (!ValidRange(st.arrival, date) ==> r.days == [])
      && (ValidRange(st.arrival, date) ==> r.days == st.days)
  {
    if st.readOnly then st
    else if date.None? || st.arrival.None? || st.arrival.value > date.value then
      st.(departure := date, days := [])
    else st.(departure := date)
  }

  /**
   * Clearing the days in a date handler never changes what the generation
   * effect then produces: it clears exactly when generation yields no days.
   */
  lemma DateChangeAgreesWithGeneration(st: State, date: Option<int>)
    ensures var r := ArrivalChanged(st, date);
      GenerateDays(r.days, r.arrival, r.departure) == GenerateDays(st.days, r.arrival, r.departure)
    ensures var r := DepartureChanged(st, date);
      GenerateDays(r.days, r.arrival, r.departure) == GenerateDays(st.days, r.arrival, r.departure)
  {
  }
}
