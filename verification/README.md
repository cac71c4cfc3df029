# Itinerary generator: a Dafny model of its pure core

The application lets a concierge build a day-by-day itinerary for a villa
stay, store it, and export it as a PDF. This project models the parts of it
that are plain computation, and proves what they promise:

- **Persistence mapping** (`Persistence`). `itemsToDayData` turns stored item
  rows into one day per date from arrival to departure, with each day's items
  in stable `sort_order` order. `dayDataToItems` flattens days back into rows
  numbered by their position in the day. The main result is a round trip:
  storing a consecutive day list and reading it back returns the same items
  per day.
- **Editor operations** (`Editor`, with the generic splice and sort helpers in
  `Seqs`). These are the item add, remove, update, reorder and move up/down
  operations; the drag-and-drop target index; the day list that follows the
  chosen dates; and the date handlers. The item and date handlers do nothing
  in read-only mode, and the rows are draggable only outside it. The day
  list is different: it follows the dates in read-only mode too, so
  `GenerateDays` takes no read-only flag.
- **Time strings** (`TimePicker`, `PdfText`, with the JavaScript number
  conversions in `Text`):
  - the picker's 24-to-12-hour `formatTime`, its regular-expression based
    `parseTime`, and its hour, minute and AM/PM buttons;
  - the PDF's `formatTimeForPDF`, ordinal suffixes, header placeholders and
    file name.

  Together these show that a time picked in the editor prints in the PDF
  with the wrong period after noon.
- **PDF page flow** (`PdfLayout`). The vertical cursor of the export is
  threaded through an immutable flow record that also keeps a trace of every
  step. The model covers the header height, `checkPageBreak`, the day blocks
  and their tables, the unconditional policy page and the page numbers.

Dates are whole day numbers: consecutive calendar days are consecutive
integers. Layout distances are exact `real`s in millimetres. Text wrapping is
a parameter `wrap` that gives the number of lines a cell takes.

## Model

| member | source | states |
|---|---|---|
| Itinerary.ItemCountConcat | src/lib/itineraryService.ts:89-109 | the item count of a day list is additive over concatenation, which is what lets the flattened rows be split per day |
| Persistence.DaysFrom | src/lib/itineraryService.ts:49-59 | one day per date from the first to the last inclusive, in ascending order, none when the range is inverted |
| Persistence.DaysFromDates | src/lib/itineraryService.ts:49-59 | the generated days are consecutive from the first date and sorted by date |
| Persistence.KeyOfFirstRow | src/lib/itineraryService.ts:77-79 | the key found by id, with 0 as the fallback: 0 when no row has the id, otherwise the sort_order of the first row with that id |
| Persistence.DayOf | src/lib/itineraryService.ts:62-81 | a day holds exactly the items of the rows with its date, sorted by their sort key |
| Persistence.ItemsToDayData | src/lib/itineraryService.ts:43-86 | exactly departure - arrival + 1 days (none when arrival > departure), dated consecutively from arrival |
| Persistence.DateSortKeepsOrder | src/lib/itineraryService.ts:83-85 | the final sort by date leaves the day list as it was built |
| Persistence.PlacedHas | src/lib/itineraryService.ts:62-72 | an item is among a date's collected items exactly when some row with that date carries it |
| Persistence.RowLands | src/lib/itineraryService.ts:62-72 | a row's date has a day in the result exactly when it lies in the range, and then the row's item is in that day |
| Persistence.RowInItsDay | src/lib/itineraryService.ts:62-72 | a row dated inside the range lands in the day of its date, with id, time, event and location copied |
| Persistence.DayItemsFromRows | src/lib/itineraryService.ts:62-72 | every item of a resulting day comes from a row with that day's date, so rows outside the range are dropped |
| Persistence.DaySortedStable | src/lib/itineraryService.ts:74-81 | each day's items are sorted by sort_order, and items with equal sort_order keep their input order |
| Persistence.TotalItems | src/lib/itineraryService.ts:62-72 | the total number of items equals the number of rows dated inside the range |
| Persistence.KeyOfDistinct | src/lib/itineraryService.ts:77-79 | with distinct ids, the key found by id is that row's own sort_order |
| Persistence.DayDataToItems | src/lib/itineraryService.ts:89-109 | as many rows as items over all days, every one carrying the given itinerary id |
| Persistence.DayDataToItemsConcat | src/lib/itineraryService.ts:95-106 | the rows of two day lists are the rows of the first followed by the rows of the second |
| Persistence.DayDataToItemsAt | src/lib/itineraryService.ts:95-105 | item i of day k becomes the row after all earlier days' rows plus i, with the day's date, the item's fields and sort_order i |
| Persistence.DatesWithin | src/lib/itineraryService.ts:95-105 | every row's date is the date of some day, so it stays within the days' date bounds |
| Persistence.StoredDay | src/lib/itineraryService.ts:43-109 | after storing, the rows read back for day k are that day's items in order, with sort_order 0 to n-1 |
| Persistence.RoundTripDay | src/lib/itineraryService.ts:43-109 | reading back a stored day list gives each day its items' time, event and location in the original order |
| Persistence.RoundTrip | src/lib/itineraryService.ts:43-109 | for consecutive days and distinct stored ids, reading back the stored rows gives the same dates and, per day, the same entries in order |
| Seqs.RemoveAt | src/components/ItineraryEditor.tsx:226 | `splice(i, 1)` keeps the elements before i and shifts the ones after it down by one |
| Seqs.InsertAt | src/components/ItineraryEditor.tsx:227 | `splice(i, 0, x)` puts x at i, or at the end when i is past it, and keeps the rest around it |
| Seqs.InsertAtMultiset | src/components/ItineraryEditor.tsx:227 | an insertion adds exactly the inserted element |
| Seqs.RemoveInserted | src/components/ItineraryEditor.tsx:226-227 | removing at the insertion point undoes an insertion |
| Seqs.InsertRemoved | src/components/ItineraryEditor.tsx:226-227 | inserting the removed element where it was undoes a removal |
| Seqs.Reorder | src/components/ItineraryEditor.tsx:225-228 | the two splices give a permutation with the moved element at the clamped target, and the other elements in their old relative order |
| Seqs.ReorderInPlace | src/components/ItineraryEditor.tsx:225-228 | moving an element onto its own index changes nothing |
| Seqs.ReorderNeighbour | src/components/ItineraryEditor.tsx:233-247 | moving to a neighbouring index, in either direction, swaps the two elements |
| Seqs.InsertKeepsSorted | src/lib/itineraryService.ts:76-80 | a stable insertion into a sorted list keeps it sorted |
| Seqs.InsertWithKey | src/lib/itineraryService.ts:76-80 | the inserted element goes after every element with the same key |
| Seqs.SortByKey | src/lib/itineraryService.ts:76-80 | the stable sort keeps the length; its order, permutation and stability are the lemmas below |
| Seqs.SortByKeySorted | src/lib/itineraryService.ts:76-80 | the stable sort's result is ordered by key |
| Seqs.SortByKeyPermutes | src/lib/itineraryService.ts:76-80 | the sort's result is a permutation of its input |
| Seqs.SortByKeyHas | src/lib/itineraryService.ts:76-80 | an element is in the sorted list exactly when it is in the input |
| Seqs.SortByKeyStable | src/lib/itineraryService.ts:76-80 | the elements of each key keep their input order |
| Seqs.SortByKeyOfSorted | src/lib/itineraryService.ts:83-85 | a list already in key order comes back unchanged |
| Editor.AddDayItem | src/components/ItineraryEditor.tsx:177-189 | read-only changes nothing; otherwise only day d changes, growing by one blank item with the new id after its unchanged items |
| Editor.Without | src/components/ItineraryEditor.tsx:195-197 | the kept items are exactly those whose id differs, and nothing is added |
| Editor.WithoutAbsent | src/components/ItineraryEditor.tsx:195-197 | filtering out an id that no item has keeps the list as it is |
| Editor.WithoutConcat | src/components/ItineraryEditor.tsx:195-197 | filtering distributes over concatenation, so the kept items stay in order |
| Editor.RemoveDayItem | src/components/ItineraryEditor.tsx:192-199 | read-only changes nothing; otherwise only day d changes, to its items without those with that id, the rest kept in order |
| Editor.RemoveTwice | src/components/ItineraryEditor.tsx:192-199 | removing an id twice is removing it once |
| Editor.RemoveAfterAdd | src/components/ItineraryEditor.tsx:177-199 | removing a freshly added item by its new id restores the state |
| Editor.FindId | src/components/ItineraryEditor.tsx:210 | `find` gives the first item with the id, and none exactly when no item has it |
| Editor.Set | src/components/ItineraryEditor.tsx:212 | the named field gets the value and every other field keeps its value |
| Editor.SetUnchanged | src/components/ItineraryEditor.tsx:212 | writing a field's own value back changes nothing |
| Editor.UpdateDayItem | src/components/ItineraryEditor.tsx:202-215 | read-only or an absent id changes nothing; otherwise only the named field of the first matching item of day d changes |
| Editor.ReorderDayItems | src/components/ItineraryEditor.tsx:218-230 | read-only changes nothing; otherwise only day d changes, to a permutation with the moved item at the target and the others in their relative order |
| Editor.MoveItemUp | src/components/ItineraryEditor.tsx:233-238 | a no-op at index 0 or when read-only; otherwise it swaps the item with the one above |
| Editor.MoveItemDown | src/components/ItineraryEditor.tsx:241-247 | a no-op at the last index or when read-only; otherwise it swaps the item with the one below |
| Editor.DownThenUp | src/components/ItineraryEditor.tsx:233-247 | moving an item down and then up again restores the state |
| Editor.DropIndex | src/components/ItineraryEditor.tsx:630-641 | the target index is at most one past the drop row; for another row it is that row's index once the dragged item is taken out, or one past it for the bottom half |
| Editor.DropPlacement | src/components/ItineraryEditor.tsx:630-647 | dropping on another row keeps the target in range and puts the dragged item directly above that row's item on the top half, and directly below it on the bottom half |
| Editor.DropOnItself | src/components/ItineraryEditor.tsx:630-647 | dropping an item on its own row leaves the list unchanged |
| Editor.ExistingItems | src/components/ItineraryEditor.tsx:157-162 | a date that no previous day has gets no items |
| Editor.ExistingItemsOfFirst | src/components/ItineraryEditor.tsx:157-162 | a date gets the items of the first previous day with that date |
| Editor.Regenerate | src/components/ItineraryEditor.tsx:151-172 | one day per consecutive date of the range, each with the items the previous list had for that date |
| Editor.GenerateDays | src/components/ItineraryEditor.tsx:121-174 | no days exactly when a date is missing or departure precedes arrival; otherwise the result spans the range, and is the previous list itself when that already spans it |
| Editor.RegenerateConsecutive | src/components/ItineraryEditor.tsx:151-172 | a list that is already the consecutive range regenerates to itself |
| Editor.GenerateSettles | src/components/ItineraryEditor.tsx:135-172 | the length-and-ends shortcut agrees with regenerating for a consecutive list, and generating twice is generating once |
| Editor.GenerateKeepsItems | src/components/ItineraryEditor.tsx:151-172 | the first previous day with a date inside the range survives with its items |
| Editor.ArrivalChanged | src/components/ItineraryEditor.tsx:250-257 | read-only changes nothing; otherwise the arrival is set, and the days are cleared exactly when the range becomes missing or inverted |
| Editor.DepartureChanged | src/components/ItineraryEditor.tsx:259-266 | read-only changes nothing; otherwise the departure is set, and the days are cleared exactly when the range becomes missing or inverted |
| Editor.DateChangeAgreesWithGeneration | src/components/ItineraryEditor.tsx:250-266 | clearing the days in a date handler never changes what the generation effect then produces |
| Text.NatToString | src/components/ui/time-picker.tsx:40 | `toString` of a natural number gives digits with no leading zero whose decimal value is the number |
| Text.Pad2 | src/components/ui/time-picker.tsx:81-83 | `padStart(2, "0")` gives digits with the same value, exactly two of them below 100 |
| Text.ParseInt | src/components/ui/time-picker.tsx:37 | `parseInt` is NaN for a string without a digit, and a negative result needs a '-' in the string |
| Text.ParseIntOfDigits | src/components/ui/time-picker.tsx:37 | `parseInt` of a non-empty digit string is its decimal value |
| Text.ParseIntOfNatToString | src/components/ui/time-picker.tsx:37 | `parseInt` undoes `toString` on natural numbers |
| TimePicker.Hour12 | src/components/ui/time-picker.tsx:93 | the dial hour, `hours % 12` or 12 when that is 0, lies in 1..12 and agrees with the hour modulo 12 |
| TimePicker.JsRem12 | src/components/ui/time-picker.tsx:39 | JavaScript's `% 12` truncates: it is in 0..11 for a non-negative hour and in -11..0 for a negative one, and always congruent to the hour modulo 12 |
| TimePicker.FirstIndex | src/components/ui/time-picker.tsx:36 | the position of the first ':', which `split(":")` cuts at |
| TimePicker.FormatTime | src/components/ui/time-picker.tsx:32-43 | an empty string stays empty and a string without ':' is returned as it is |
| TimePicker.FormatTimeOfFields | src/components/ui/time-picker.tsx:32-43 | "HH:MM" with a digit hour becomes the hour on a 12-hour dial, ':', the minutes verbatim and " PM" exactly from 12 on, " AM" otherwise |
| TimePicker.FormatTimeNaNHour | src/components/ui/time-picker.tsx:36-40 | an hour field that `parseInt` reads as NaN prints as "12" with " AM" and the minute field verbatim |
| TimePicker.HandleTimeChange | src/components/ui/time-picker.tsx:76-86 | the stored string is the 12-hour rendering of the zero-padded "HH:MM" |
| TimePicker.ParseTime | src/components/ui/time-picker.tsx:45-74 | an empty string reads as 0:00 |
| TimePicker.FindClockNoMatch | src/components/ui/time-picker.tsx:49-50 | `match` finds nothing exactly when the pattern matches at no position |
| TimePicker.FindClockLeftmost | src/components/ui/time-picker.tsx:49-50 | a found match is the one at the leftmost position where the pattern matches |
| TimePicker.FindClockNeedsLetter | src/components/ui/time-picker.tsx:49-50 | a case-insensitive AM or PM pattern finds nothing in a string without that period's letter |
| TimePicker.FindClockNeedsColon | src/components/ui/time-picker.tsx:49-65 | none of the three patterns matches a string without ':' |
| TimePicker.ParseUnrecognised | src/components/ui/time-picker.tsx:45-74 | a string in which the bare "h:mm" pattern matches at no position, and so neither period pattern does, reads as 0:00, whether or not it holds a ':' |
| TimePicker.ParseWithoutColon | src/components/ui/time-picker.tsx:45-74 | an unrecognised string without ':' reads as 0:00 |
| TimePicker.ClockAtNumerals | src/components/ui/time-picker.tsx:49-65 | two digit runs around ':' at the start match exactly when the tail pattern fits after them, and the match reads the runs as hours and minutes |
| TimePicker.TwelveHourMatch | src/components/ui/time-picker.tsx:49-50 | "h:mm AM" or "h:mm PM" is matched by its own period's pattern with its hour and minutes |
| TimePicker.AmTextMissesPm | src/components/ui/time-picker.tsx:49 | the PM pattern finds nothing in "h:mm AM" |
| TimePicker.ParseTwelveHour | src/components/ui/time-picker.tsx:52-62 | "12:mm AM" reads as hour 0 and "12:mm PM" as hour 12; any other h PM reads as h + 12 and h AM as h |
| TimePicker.ParseBare | src/components/ui/time-picker.tsx:64-71 | a bare "H:M" of any two digit runs, leading zeros included, reads as the 24-hour time of their decimal values |
| TimePicker.ParseBarePadded | src/components/ui/time-picker.tsx:64-71 | the zero-padded "HH:MM" the picker builds reads back as that hour and minute |
| TimePicker.Folded | src/components/ui/time-picker.tsx:52-62 | the hour a pick reads back as is below 24, and equals the picked hour exactly when that is below 24 |
| TimePicker.ParseAfterPick | src/components/ui/time-picker.tsx:32-90 | reading back a picked time gives the picked hour and minute exactly when the hour is below 24 |
| TimePicker.ViewOf | src/components/ui/time-picker.tsx:92-94 | the highlighted dial hour is in 1..12 and agrees with the hour modulo 12, and PM is shown exactly when the hour is 12 or more |
| TimePicker.HourButtonHours | src/components/ui/time-picker.tsx:136-143 | the new hour shows the clicked dial hour, stays below 24 and keeps the current period |
| TimePicker.HourButton | src/components/ui/time-picker.tsx:136-143 | after an hour click the popover shows the clicked hour with the same period and minute |
| TimePicker.MinuteButton | src/components/ui/time-picker.tsx:166 | a minute click keeps the hour read from the stored time and sets the minute |
| TimePicker.AmButtonHours | src/components/ui/time-picker.tsx:184-191 | AM leaves an AM hour alone and takes a PM hour below 24 to the same dial hour below 12 |
| TimePicker.PmShift | src/components/ui/time-picker.tsx:199-200 | PM leaves a PM hour alone and takes an AM hour to the same dial hour in 12..23 |
| TimePicker.PmButtonHours | src/components/ui/time-picker.tsx:199-206 | with the guard, every hour below 24 goes to the same dial hour in 12..23 |
| TimePicker.PmGuardOnlyAtTwentyFour | src/components/ui/time-picker.tsx:202 | the `=== 24` guard fires only for a stored hour of exactly 24 |
| TimePicker.AmButton | src/components/ui/time-picker.tsx:184-191 | clicking AM keeps the dial hour and the minute and shows AM |
| TimePicker.PmButton | src/components/ui/time-picker.tsx:199-206 | clicking PM keeps the dial hour and the minute and shows PM |
| TimePicker.MinuteChoices | src/components/ui/time-picker.tsx:158-159 | the minute buttons are exactly the multiples of 5 in 0..55, ascending |
| PdfText.ShortClockAt | src/lib/pdfGenerator.ts:8 | a match of `(\d{1,2}):(\d{2})` has an hour below 100 and two minute digits |
| PdfText.FindShortClockNoMatch | src/lib/pdfGenerator.ts:8-9 | the search finds nothing exactly when `(\d{1,2}):(\d{2})` matches at no position |
| PdfText.FindShortClockLeftmost | src/lib/pdfGenerator.ts:8 | a found match is the one at the leftmost position where the pattern matches |
| PdfText.FormatTimeForPdf | src/lib/pdfGenerator.ts:6-18 | "" stays "", text without a match is printed as it is, and otherwise the hour is printed on a 12-hour dial (1..12) with the two minute digits and "pm" exactly from 12 on |
| PdfText.TimeCell | src/lib/pdfGenerator.ts:305 | the time cell is never empty: "-" for no time, otherwise the formatted time |
| PdfText.PdfOfTwentyFourHour | src/lib/pdfGenerator.ts:6-18 | a 24-hour "HH:MM" prints as its 12-hour hour, the minutes verbatim, and "pm" exactly from noon on |
| PdfText.ShortClockOfOneDigit | src/lib/pdfGenerator.ts:8 | "h:MM..." with a one-digit hour matches that hour and those minutes |
| PdfText.ShortClockOfTwoDigits | src/lib/pdfGenerator.ts:8 | "hh:MM..." with a two-digit hour matches that hour and those minutes |
| PdfText.PdfOfPickedTime | src/lib/pdfGenerator.ts:8-17 | a time stored by the picker prints "pm" exactly when its dial hour is 12, whatever period it carries |
| PdfText.PickedAfternoonPrintsAm | src/lib/pdfGenerator.ts:8-17 | a picked hour from 13 to 23 prints as hour - 12 with "am", and midnight prints as "12:MMpm" |
| PdfText.OrdinalSuffix | src/lib/pdfGenerator.ts:21-33 | the suffix is one of st, nd, rd and th; th for 4 to 20; st, nd and rd only for a last digit of 1, 2 and 3 |
| PdfText.OrdinalSuffixIsEnglish | src/lib/pdfGenerator.ts:21-33 | for the days of a month the suffix follows the English rule: st, nd, rd by the last digit, except th for 11 to 13 |
| PdfText.DayTitle | src/lib/pdfGenerator.ts:255-258 | the weekday name, one space, then the day of the month and, for days 1 to 31, its English ordinal suffix |
| PdfText.OrPlaceholder | src/lib/pdfGenerator.ts:226-227 | an empty client or villa name prints "XXX"; any other prints as it is |
| PdfText.ReplaceRunsFacts | src/lib/pdfGenerator.ts:494 | after replacing runs no matching character is left, a string without one is unchanged, and nothing grows |
| PdfText.CollapseSpaces | src/lib/pdfGenerator.ts:494 | the name holds no white space afterwards, is unchanged when it had none, and does not grow |
| PdfText.ReplaceAtRun | src/lib/pdfGenerator.ts:494 | one maximal run becomes exactly one separator between the replaced parts on either side |
| PdfText.CollapseAtRun | src/lib/pdfGenerator.ts:494 | each maximal white-space run in a client name becomes exactly one '_' |
| PdfText.FileName | src/lib/pdfGenerator.ts:493-498 | "Itinerary_" + date + ".pdf" without a client name, with the collapsed name and '_' before the date otherwise |
| PdfLayout.HeaderHeight | src/lib/pdfGenerator.ts:139-146 | the header takes at least 8, and 18 without a logo |
| PdfLayout.CheckPageBreak | src/lib/pdfGenerator.ts:188-196 | a page is added exactly when y + need passes the bottom margin, and the cursor then sits under the header; otherwise nothing changes |
| PdfLayout.MaxLines | src/lib/pdfGenerator.ts:328-333 | the tallest cell's line count, at least 1 |
| PdfLayout.RowLines | src/lib/pdfGenerator.ts:305-333 | a row is at least one line and at least as tall as each of its three wrapped cells, empty cells printing "-" |
| PdfLayout.RowAdvance | src/lib/pdfGenerator.ts:334 | a row moves the cursor down by at least 2.5 |
| PdfLayout.RowAdvanceIncreasing | src/lib/pdfGenerator.ts:334 | a row with more lines moves the cursor strictly further |
| PdfLayout.TableRowAt | src/lib/pdfGenerator.ts:297-345 | row (day, i) is drawn after a page break exactly when y + 12 passes the bottom; the cursor moves from there by the row's height, plus 3 for the rule under every row but the last |
| PdfLayout.TableRows | src/lib/pdfGenerator.ts:297-345 | rows i to the end are drawn in item order with one rule fewer; on one page the cursor moves by their heights plus 3 per rule between them |
| PdfLayout.Table | src/lib/pdfGenerator.ts:273-351 | a table of n rows draws rows 0 to n - 1 in order and n rules; it breaks the page when y + 20 passes the bottom, and on one page moves the cursor by 5 for the titles, the rows, 3 per rule between rows and 3 for the closing rule |
| PdfLayout.DayLines | src/lib/pdfGenerator.ts:297-333 | a day has one row height per item, each at least one line |
| PdfLayout.DayContent | src/lib/pdfGenerator.ts:267-352 | under the title, an empty day draws the placeholder, no rule and no row, and moves down 10; otherwise the table's rows in item order |
| PdfLayout.DayBlock | src/lib/pdfGenerator.ts:251-354 | one title for the day; the placeholder and no table exactly for an empty day, otherwise one row per item in item order and a rule per row; a break when y + 40 passes the bottom; on one page the cursor moves by 8, then 10 or the table's height, then 6 |
| PdfLayout.DayHeading | src/lib/pdfGenerator.ts:252-264 | a break exactly when y + 40 passes the bottom, then the day's title and 8 down; nothing else is drawn |
| PdfLayout.DayBlocks | src/lib/pdfGenerator.ts:251-355 | the day titles are drawn once each, in the order of the days |
| PdfLayout.BulletExtra | src/lib/pdfGenerator.ts:412-446 | a bullet that fits on one line takes no extra room, and no bullet takes negative room |
| PdfLayout.Bullets | src/lib/pdfGenerator.ts:405-448 | the bullets only add pages by page breaks and draw no day content |
| PdfLayout.PolicyPage | src/lib/pdfGenerator.ts:357-483 | the policy page always adds at least one page and draws no day content |
| PdfLayout.FirstPage | src/lib/pdfGenerator.ts:198-200 | the export starts on page 1 with an empty trace |
| PdfLayout.PageNumbers | src/lib/pdfGenerator.ts:486-490 | the pages are numbered 1 to n, in page order |
| PdfLayout.Layout | src/lib/pdfGenerator.ts:198-483 | the flow starts under the header of page 1, draws the day titles in day order, and ends with at least 2 pages, one more than its page breaks |
| PdfLayout.Generate | src/lib/pdfGenerator.ts:42-44 | no document exactly when a date is missing or there are no days; otherwise at least 2 pages, numbered 1 to the last |
| PdfLayout.PositiveMovesAll | src/lib/pdfGenerator.ts:251-355 | every move in the trace is a positive step down the page |
| PdfLayout.GenerateTrace | src/lib/pdfGenerator.ts:251-490 | the document draws one title per day in day order, only moves down within a page, and replaying its trace gives its page count, one more than its page breaks |

## Left out

- Network and storage: the Supabase create, update, delete and fetch calls
  and the share URL are I/O. Only the two pure converters of
  `itineraryService.ts` are modelled.
- Database ids: `Store` attaches the ids the database assigns as a parameter
  sequence. The round trip needs them distinct and compares time, event and
  location, because the ids are not the editor's.
- Dates: JavaScript `Date`, `toISOString` (UTC) against `setDate` (local
  time), and the `Math.ceil` day count in the editor are modelled as integer
  day numbers. Time zones and daylight saving are not modelled.
- date-fns formatting: weekday and month names, "MMM d, yyyy" and the
  export date in the file name are parameters. `DayTitle` takes the
  upper-cased weekday name, and `FileName` takes the formatted date.
- Fonts, logo and drawing: font and logo loading (`fetch`, `FileReader`,
  `Image`, `btoa`) and every jsPDF drawing call are left out. The logo is a
  parameter. Text wrapping (`splitTextToSize`) is the `wrap` parameter.
  Widths measured with `getTextWidth` are not modelled.
- PdfLayout.Generate: `totalPages` is the number of pages the flow created.
  The page bookkeeping of jsPDF's `doc.internal.pages` is not modelled.
- PdfLayout.PolicyPage: the fixed policy copy is not modelled. Its layout is
  modelled only through the line counts of its paragraphs and bullets. The
  GYPSEA bullet is the sixth and last in the source's list.
- PdfLayout.Layout: the text cells of the header block (CLIENT, VILLA and
  the dates) are not traced, only the room they take. Their values are
  `OrPlaceholder`.
- PdfLayout.DayBlock: the final y is stated for a block that stays on one
  page. After a page break inside it, only the counts and the order of what
  was drawn are stated.
- Floating point: layout arithmetic is exact `real` arithmetic, not IEEE
  doubles. Every constant in it is a short decimal.
- Text.ParseInt: JavaScript numbers lose precision above 2^53. Integers here
  are unbounded.
- Case-insensitive matching covers the ASCII letters of "AM" and "PM" only.
  No other Unicode case folding is modelled.
- React plumbing in the editor: the prop-sync and change-notification
  effects (`requestAnimationFrame`, `setTimeout`), the drag-event geometry
  that picks the top or bottom half, and all JSX.
- Editor.AddDayItem: the fresh id from `crypto.randomUUID()` is a parameter.
- Editor.AddDayItem, Editor.RemoveDayItem, Editor.UpdateDayItem,
  Editor.ReorderDayItems, Editor.MoveItemUp, Editor.MoveItemDown: the handlers
  copy only the outer day array and then change the day and item objects in
  place (`items.push`, assigning `items`, `item[field] = value`). The reorder
  assigns the spliced copy to the shared day's `items`; moving up or down
  and dropping a dragged row all go through it. Those
  objects are shared with the previous state, the parent's initial data and
  the last data sent to the parent. The model keeps only the resulting state,
  not that sharing, so the earlier values these handlers also overwrite are
  not modelled.
- Editor.ReorderDayItems: indices are natural numbers, and `from` must name
  an item. A negative or out-of-range `from` in `splice` is not modelled; the
  editor only passes indices of rows it shows.
- Editor day index: every item operation requires the day index to name a
  day. The editor only passes indices of the days it renders.
- TimePicker.ParseTime: its own contract states only the empty-string case.
  The other cases are the lemmas ParseTwelveHour, ParseBare, ParseUnrecognised,
  ParseWithoutColon and ParseAfterPick. Between them they cover "h:mm AM"
  and "h:mm PM", a bare "a:b" of two digit runs, a string with no match at
  all, and the picker's own output. Other strings with a bare match, such as
  "10:30 later", are covered only by FindClockNoMatch and FindClockLeftmost.
- TimePicker.MinuteButton: stated only for stored times whose hour reads
  below 24, which is every time the picker itself stores.
- TimePicker.AmButton: stated only for stored times whose hour reads below
  24.
- TimePicker.PmButton: stated only for stored times whose hour reads below
  24.
- Persistence.ItemsToDayData: the final sort by date is not in the function
  body. The lemma DateSortKeepsOrder proves it changes nothing, since the
  days are built in ascending date order.
- Persistence.KeyOf: a missing row, where `?.sort_order || 0` gives 0, never
  happens for items built from the rows themselves. The `|| 0` on a stored
  0 gives 0 as well, so the key is the row's sort_order.
- The pages, routing, buttons, styling and build configuration are UI and
  configuration. They are not part of this model.
