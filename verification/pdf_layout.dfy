// The vertical page flow of the PDF export (src/lib/pdfGenerator.ts:119-490):
// a cursor `y` on the current page, page breaks that reset it under the
// header, the day blocks with their tables, the policy page and the page
// numbers. Drawing itself is left out; what remains is the cursor threaded
// through the export as an immutable record, with a trace of what happened.
// Text wrapping is an uninterpreted line count per cell.

module PdfLayout {
  import opened Wrappers
  import opened Itinerary
  import PdfText

  const Margin: real := 20.0
  /** jsPDF's default page: A4 portrait, in millimetres. */
  const PageHeight: real := 297.0
  /** The lowest `y` content may reach before a page break. */
  const Bottom: real := PageHeight - Margin

  /** The pixel size of the logo image, when it loaded. */
  datatype Logo = Logo(width: nat, height: nat)

  /** The space the page header takes: the logo's height in millimetres plus 8, or 18 without a logo. */
  function HeaderHeight(logo: Option<Logo>): (h: real)
    ensures h >= 8.0
    ensures logo.None? ==> h == 18.0
  {
    if logo.Some? && logo.value.width > 0 && logo.value.height > 0 then
      logo.value.height as real * (25.4 / 72.0) + 8.0
    else 18.0
  }

  // ---------------------------------------------------------------------
  // The flow and its trace

  datatype Step =
    | Move(dy: real)                 // the cursor moves down the current page
    | NewPage                        // a page is added, its header drawn, the cursor put under it
    | Heading(day: nat)              // the title of a day block
    | Placeholder(day: nat)          // "No items added for this day"
    | TableRow(day: nat, item: nat)  // one row of a day's table
    | Rule                           // a ruled line under a table row

  datatype Cursor = Cursor(y: real, pages: nat)

  /** What the export did, most recent step last. */
  datatype Trace = Start | Then(before: Trace, last: Step)

  /** The trace as a sequence, first step first. */
  function Steps(t: Trace): (r: seq<Step>)
    ensures t.Then? ==> |r| > 0 && r[|r| - 1] == t.last
  {
    match t
    case Start => []
    case Then(before, s) => Steps(before) + [s]
  }

  function Apply(c: Cursor, s: Step, header: real): Cursor {
    match s
    case Move(dy) => Cursor(c.y + dy, c.pages)
    case NewPage => Cursor(Margin + header, c.pages + 1)
    case _ => c
  }

  /** Where the cursor ends after the trace `t`, starting from `c`. */
  function Replay(c: Cursor, t: Trace, header: real): Cursor {
    match t
    case Start => c
    case Then(before, s) => Apply(Replay(c, before, header), s, header)
  }

  predicate PositiveMoves(t: Trace) {
    match t
    case Start => true
    case Then(before, s) => PositiveMoves(before) && (s.Move? ==> s.dy > 0.0)
  }

  /** The cursor after the trace from `origin`, with the page header height. */
  datatype Flow = Flow(header: real, origin: Cursor, y: real, pages: nat, trace: Trace)

  /** The cursor is exactly where its trace leads, and the trace only moves down. */
  predicate Sound(f: Flow) {
    f.header > 0.0 && Replay(f.origin, f.trace, f.header) == Cursor(f.y, f.pages) && PositiveMoves(f.trace)
  }

  function NewPages(t: Trace): nat {
    match t
    case Start => 0
    case Then(before, s) => NewPages(before) + (if s.NewPage? then 1 else 0)
  }

  function Rules(t: Trace): nat {
    match t
    case Start => 0
    case Then(before, s) => Rules(before) + (if s.Rule? then 1 else 0)
  }

  function RowsDrawn(t: Trace): nat {
    match t
    case Start => 0
    case Then(before, s) => RowsDrawn(before) + (if s.TableRow? then 1 else 0)
  }

  /** The days whose titles were drawn, in order. */
  function Headings(t: Trace): seq<nat> {
    match t
    case Start => []
    case Then(before, s) => Headings(before) + (if s.Heading? then [s.day] else [])
  }

  /** The days whose "No items added for this day" line was drawn, in order. */
  function Placeholders(t: Trace): seq<nat> {
    match t
    case Start => []
    case Then(before, s) => Placeholders(before) + (if s.Placeholder? then [s.day] else [])
  }

  /** The table rows drawn, as (day, item) pairs, in order. */
  function RowOrder(t: Trace): seq<(nat, nat)> {
    match t
    case Start => []
    case Then(before, s) => RowOrder(before) + (if s.TableRow? then [(s.day, s.item)] else [])
  }

  /** Everything the export does to the flow goes through here: one step more. */
  function Push(f: Flow, s: Step): (r: Flow)
    requires Sound(f)
    requires s.Move? ==> s.dy > 0.0
    ensures Sound(r) && r.header == f.header && r.origin == f.origin
    ensures r.pages == f.pages + (if s.NewPage? then 1 else 0)
    ensures s.Move? ==> r.y == f.y + s.dy
    ensures s.NewPage? ==> r.y == Margin + f.header
    ensures !s.Move? && !s.NewPage? ==> r.y == f.y
    ensures NewPages(r.trace) == NewPages(f.trace) + (if s.NewPage? then 1 else 0)
    ensures Rules(r.trace) == Rules(f.trace) + (if s.Rule? then 1 else 0)
    ensures RowsDrawn(r.trace) == RowsDrawn(f.trace) + (if s.TableRow? then 1 else 0)
    ensures Headings(r.trace) == Headings(f.trace) + (if s.Heading? then [s.day] else [])
    ensures Placeholders(r.trace) == Placeholders(f.trace) + (if s.Placeholder? then [s.day] else [])
    ensures RowOrder(r.trace) == RowOrder(f.trace) + (if s.TableRow? then [(s.day, s.item)] else [])
  {
    var c := Apply(Cursor(f.y, f.pages), s, f.header);
    Flow(f.header, f.origin, c.y, c.pages, Then(f.trace, s))
  }

  function Advance(f: Flow, dy: real): (r: Flow)
    requires Sound(f) && dy > 0.0
    ensures Sound(r) && r.header == f.header && r.origin == f.origin
    ensures r.y == f.y + dy && r.pages == f.pages
    ensures NewPages(r.trace) == NewPages(f.trace) && Rules(r.trace) == Rules(f.trace)
    ensures RowsDrawn(r.trace) == RowsDrawn(f.trace) && Headings(r.trace) == Headings(f.trace)
    ensures Placeholders(r.trace) == Placeholders(f.trace) && RowOrder(r.trace) == RowOrder(f.trace)
  {
    Push(f, Move(dy))
  }

  /**
   * `checkPageBreak(need)`: a new page exactly when `need` more millimetres
   * would pass the bottom margin; afterwards the space is there, provided an
   * empty page has it.
   */
  function CheckPageBreak(f: Flow, need: real): (r: Flow)
    requires Sound(f)
    ensures Sound(r) && r.header == f.header && r.origin == f.origin
    ensures r.pages == f.pages + 1 <==> f.y + need > Bottom
    ensures r.pages == f.pages ==> r == f
    ensures r.pages == f.pages + 1 ==> r.y == Margin + f.header
    ensures Margin + f.header + need <= Bottom ==> r.y + need <= Bottom
    ensures NewPages(r.trace) == NewPages(f.trace) + (r.pages - f.pages)
    ensures Rules(r.trace) == Rules(f.trace) && RowsDrawn(r.trace) == RowsDrawn(f.trace)
    ensures Headings(r.trace) == Headings(f.trace)
    ensures Placeholders(r.trace) == Placeholders(f.trace) && RowOrder(r.trace) == RowOrder(f.trace)
  {
    if f.y + need > Bottom then Push(f, NewPage) else f
  }

  // ---------------------------------------------------------------------
  // Table rows

  /** The columns of a day table, each with its own wrapping width. */
  datatype Column = TimeColumn | EventColumn | LocationColumn

  /** An event or location cell: empty text prints "-". */
  function OrDash(value: string): (r: string)
    ensures r != ""
    ensures value != "" ==> r == value
  {
    if value == "" then "-" else value
  }

  function Max(a: nat, b: nat): nat {
    if a >= b then a else b
  }

  /** The tallest of the three cells, and never less than one line. */
  function MaxLines(time: nat, event: nat, location: nat): (n: nat)
    ensures n >= 1 && n >= time && n >= event && n >= location
    ensures n == 1 || n == time || n == event || n == location
  {
    Max(Max(Max(time, event), location), 1)
  }

  /** The lines of an item's row, given how many lines each cell's text wraps to. */
  function RowLines(item: DayItem, wrap: (string, Column) -> nat): (n: nat)
    ensures n >= 1
    ensures n >= wrap(PdfText.TimeCell(item.time), TimeColumn)
    ensures n >= wrap(OrDash(item.event), EventColumn)
    ensures n >= wrap(OrDash(item.location), LocationColumn)
  {
    MaxLines(wrap(PdfText.TimeCell(item.time), TimeColumn),
             wrap(OrDash(item.event), EventColumn),
             wrap(OrDash(item.location), LocationColumn))
  }

  /** How far a row of `lines` lines moves the cursor: 2.5 for one line, 3.6 per line otherwise. */
  function RowAdvance(lines: nat): (dy: real)
    requires lines >= 1
    ensures dy >= 2.5
  {
    lines as real * (if lines == 1 then 2.5 else 3.6)
  }

  /** A taller row always takes more room. */
  lemma RowAdvanceIncreasing(a: nat, b: nat)
    requires 1 <= a < b
    ensures RowAdvance(a) < RowAdvance(b)
  {
    if a == 1 {
      assert RowAdvance(b) == b as real * 3.6;
    } else {
      assert a as real * 3.6 < b as real * 3.6;
    }
  }

  predicate AllPositive(lines: seq<nat>) {
    forall i :: 0 <= i < |lines| ==> lines[i] >= 1
  }

  /** The rows `(day, i)` to `(day, n - 1)`, in order. */
  function ItemRows(day: nat, i: nat, n: nat): (r: seq<(nat, nat)>)
    ensures |r| == if i <= n then n - i else 0
    ensures forall j :: 0 <= j < |r| ==> r[j] == (day, i + j)
    decreases n - i
  {
    if i >= n then [] else [(day, i)] + ItemRows(day, i + 1, n)
  }

  /** The total height of the rows `i` to the end, without the rules between them. */
  function Advances(lines: seq<nat>, i: nat): (h: real)
    requires AllPositive(lines) && i <= |lines|
    ensures h >= 0.0
    decreases |lines| - i
  {
    if i == |lines| then 0.0 else RowAdvance(lines[i]) + Advances(lines, i + 1)
  }

  /** The number of rules between the rows `i` to the end. */
  function RulesBetween(n: nat, i: nat): nat {
    if i < n then n - 1 - i else 0
  }

  /**
   * One table row: room for 12, the row, and the rule under it unless it is
   * the last. On the same page the cursor moves down by the row's height, and
   * by 3 more for the rule; after a break it starts under the header.
   */
  function TableRowAt(f: Flow, day: nat, lines: seq<nat>, i: nat): (r: Flow)
    requires Sound(f) && AllPositive(lines) && i < |lines|
    ensures Sound(r) && r.header == f.header && r.origin == f.origin
    ensures r.pages == f.pages + (if f.y + 12.0 > Bottom then 1 else 0)
    ensures r.y == (if f.y + 12.0 > Bottom then Margin + f.header else f.y)
                   + RowAdvance(lines[i]) + (if i < |lines| - 1 then 3.0 else 0.0)
    ensures NewPages(r.trace) == NewPages(f.trace) + (r.pages - f.pages)
    ensures Rules(r.trace) == Rules(f.trace) + (if i < |lines| - 1 then 1 else 0)
    ensures RowsDrawn(r.trace) == RowsDrawn(f.trace) + 1
    ensures RowOrder(r.trace) == RowOrder(f.trace) + [(day, i)]
    ensures Headings(r.trace) == Headings(f.trace) && Placeholders(r.trace) == Placeholders(f.trace)
  {
    var f1 := CheckPageBreak(f, 12.0);
    var f2 := Push(f1, TableRow(day, i));
    var f3 := Advance(f2, RowAdvance(lines[i]));
    if i < |lines| - 1 then Advance(Push(f3, Rule), 3.0) else f3
  }

  /**
   * Rows `i` to the end, in item order. When no page is added, the cursor
   * moves down by the rows' heights and 3 for each rule between them.
   */
  function TableRows(f: Flow, day: nat, lines: seq<nat>, i: nat): (r: Flow)
    requires Sound(f) && AllPositive(lines) && i <= |lines|
    ensures Sound(r) && r.header == f.header && r.origin == f.origin && r.pages >= f.pages
    ensures r.pages == f.pages ==>
      r.y == f.y + Advances(lines, i) + RulesBetween(|lines|, i) as real * 3.0
    ensures NewPages(r.trace) == NewPages(f.trace) + (r.pages - f.pages)
    ensures Rules(r.trace) == Rules(f.trace) + RulesBetween(|lines|, i)
    ensures RowsDrawn(r.trace) == RowsDrawn(f.trace) + (|lines| - i)
    ensures RowOrder(r.trace) == RowOrder(f.trace) + ItemRows(day, i, |lines|)
    ensures Headings(r.trace) == Headings(f.trace) && Placeholders(r.trace) == Placeholders(f.trace)
    decreases |lines| - i
  {
    if i == |lines| then
      assert RowOrder(f.trace) + ItemRows(day, i, |lines|) == RowOrder(f.trace);
      f
    else
      var f1 := TableRowAt(f, day, lines, i);
      var r := TableRows(f1, day, lines, i + 1);
      ItemRowsFrom(RowOrder(f.trace), day, i, |lines|);
      RowsHeightStep(lines, i);
      r
  }

  lemma ItemRowsFrom(a: seq<(nat, nat)>, day: nat, i: nat, n: nat)
    requires i < n
    ensures a + [(day, i)] + ItemRows(day, i + 1, n) == a + ItemRows(day, i, n)
  {
    assert ItemRows(day, i, n) == [(day, i)] + ItemRows(day, i + 1, n);
  }

  lemma RowsHeightStep(lines: seq<nat>, i: nat)
    requires AllPositive(lines) && i < |lines|
    ensures Advances(lines, i) + RulesBetween(|lines|, i) as real * 3.0
         == RowAdvance(lines[i]) + (if i < |lines| - 1 then 3.0 else 0.0)
            + Advances(lines, i + 1) + RulesBetween(|lines|, i + 1) as real * 3.0
  {
  }

  /**
   * A day's table: room for 20, the column titles (5), the rows and the
   * closing rule (3). A table of n rows draws n rules: n - 1 between rows
   * and one under the last.
   */
  function Table(f: Flow, day: nat, lines: seq<nat>): (r: Flow)
    requires Sound(f) && AllPositive(lines) && |lines| >= 1
    ensures Sound(r) && r.header == f.header && r.origin == f.origin && r.pages >= f.pages
    ensures f.y + 20.0 > Bottom ==> r.pages > f.pages
    ensures r.pages == f.pages ==> r.y == f.y + TableHeight(lines)
    ensures NewPages(r.trace) == NewPages(f.trace) + (r.pages - f.pages)
    ensures Rules(r.trace) == Rules(f.trace) + |lines|
    ensures RowsDrawn(r.trace) == RowsDrawn(f.trace) + |lines|
    ensures RowOrder(r.trace) == RowOrder(f.trace) + ItemRows(day, 0, |lines|)
    ensures Headings(r.trace) == Headings(f.trace) && Placeholders(r.trace) == Placeholders(f.trace)
  {
    var f1 := CheckPageBreak(f, 20.0);
    var f2 := Advance(f1, 5.0);
    var f3 := TableRows(f2, day, lines, 0);
    Advance(Push(f3, Rule), 3.0)
  }

  /** A table's height on one page: column titles 5, the rows, 3 per rule between rows, the closing rule 3. */
  function TableHeight(lines: seq<nat>): real
    requires AllPositive(lines)
  {
    5.0 + Advances(lines, 0) + RulesBetween(|lines|, 0) as real * 3.0 + 3.0
  }

  // ---------------------------------------------------------------------
  // Day blocks

  /** The lines of each row of a day's table. */
  function DayLines(day: DayData, wrap: (string, Column) -> nat): (lines: seq<nat>)
    ensures |lines| == |day.items| && AllPositive(lines)
  {
    seq(|day.items|, i requires 0 <= i < |day.items| => RowLines(day.items[i], wrap))
  }

  /**
   * One day block: room for 40, the title (8); then either the placeholder
   * (10) and no table, or the table with one row per item in item order;
   * then the gap to the next day (6).
   */
  function DayBlock(f: Flow, k: nat, lines: seq<nat>): (r: Flow)
    requires Sound(f) && AllPositive(lines)
    ensures Sound(r) && r.header == f.header && r.origin == f.origin && r.pages >= f.pages
    ensures f.y + 40.0 > Bottom ==> r.pages > f.pages
    ensures r.pages == f.pages ==>
      r.y == f.y + 8.0 + (if |lines| == 0 then 10.0 else TableHeight(lines)) + 6.0
    ensures |lines| == 0 && f.y + 40.0 <= Bottom ==> r.pages == f.pages && r.y == f.y + 24.0
    ensures NewPages(r.trace) == NewPages(f.trace) + (r.pages - f.pages)
    ensures Headings(r.trace) == Headings(f.trace) + [k]
    ensures Placeholders(r.trace) == Placeholders(f.trace) + (if |lines| == 0 then [k] else [])
    ensures Rules(r.trace) == Rules(f.trace) + |lines|
    ensures RowsDrawn(r.trace) == RowsDrawn(f.trace) + |lines|
    ensures RowOrder(r.trace) == RowOrder(f.trace) + ItemRows(k, 0, |lines|)
  {
    var f1 := DayHeading(f, k);
    var f2 := DayContent(f1, k, lines);
    Advance(f2, 6.0)
  }

  /** A day's title: room for 40 below it, then the title itself (8). */
  function DayHeading(f: Flow, k: nat): (r: Flow)
    requires Sound(f)
    ensures Sound(r) && r.header == f.header && r.origin == f.origin && r.pages >= f.pages
    ensures f.y + 40.0 > Bottom ==> r.pages > f.pages
    ensures f.y + 40.0 <= Bottom ==> r.pages == f.pages
    ensures r.pages == f.pages ==> r.y == f.y + 8.0
    ensures NewPages(r.trace) == NewPages(f.trace) + (r.pages - f.pages)
    ensures Headings(r.trace) == Headings(f.trace) + [k]
    ensures Placeholders(r.trace) == Placeholders(f.trace)
    ensures Rules(r.trace) == Rules(f.trace)
    ensures RowsDrawn(r.trace) == RowsDrawn(f.trace)
    ensures RowOrder(r.trace) == RowOrder(f.trace)
  {
    Advance(Push(CheckPageBreak(f, 40.0), Heading(k)), 8.0)
  }

  /** Under a day's title: the placeholder (10) for a day without items, its table otherwise. */
  function DayContent(f: Flow, k: nat, lines: seq<nat>): (r: Flow)
    requires Sound(f) && AllPositive(lines)
    ensures Sound(r) && r.header == f.header && r.origin == f.origin && r.pages >= f.pages
    ensures r.pages == f.pages ==> r.y == f.y + (if |lines| == 0 then 10.0 else TableHeight(lines))
    ensures |lines| == 0 ==> r.pages == f.pages
    ensures NewPages(r.trace) == NewPages(f.trace) + (r.pages - f.pages)
    ensures Headings(r.trace) == Headings(f.trace)
    ensures Placeholders(r.trace) == Placeholders(f.trace) + (if |lines| == 0 then [k] else [])
    ensures Rules(r.trace) == Rules(f.trace) + |lines|
    ensures RowsDrawn(r.trace) == RowsDrawn(f.trace) + |lines|
    ensures RowOrder(r.trace) == RowOrder(f.trace) + ItemRows(k, 0, |lines|)
  {
    if |lines| == 0 then Advance(Push(f, Placeholder(k)), 10.0) else Table(f, k, lines)
  }

  /** The indices `k` to `n - 1`, in order. */
  function Indices(k: nat, n: nat): (r: seq<nat>)
    ensures |r| == if k <= n then n - k else 0
    ensures forall i :: 0 <= i < |r| ==> r[i] == k + i
    decreases n - k
  {
    if k >= n then [] else [k] + Indices(k + 1, n)
  }

  lemma IndicesFrom(a: seq<nat>, k: nat, n: nat)
    requires k < n
    ensures a + [k] + Indices(k + 1, n) == a + Indices(k, n)
  {
    assert Indices(k, n) == [k] + Indices(k + 1, n);
  }

  /** Day blocks `k` to the end, in order. */
  function DayBlocks(f: Flow, lines: seq<seq<nat>>, k: nat): (r: Flow)
    requires Sound(f) && k <= |lines|
    requires forall j :: 0 <= j < |lines| ==> AllPositive(lines[j])
    ensures Sound(r) && r.header == f.header && r.origin == f.origin && r.pages >= f.pages
    ensures NewPages(r.trace) == NewPages(f.trace) + (r.pages - f.pages)
    ensures Headings(r.trace) == Headings(f.trace) + Indices(k, |lines|)
    decreases |lines| - k
  {
    if k == |lines| then
      assert Headings(f.trace) + Indices(k, |lines|) == Headings(f.trace);
      f
    else
      var f1 := DayBlock(f, k, lines[k]);
      var r := DayBlocks(f1, lines, k + 1);
      IndicesFrom(Headings(f.trace), k, |lines|);
      r
  }

  // ---------------------------------------------------------------------
  // The policy page

  /**
   * How many lines the fixed policy texts wrap to: the opening paragraph,
   * each of the six bullets, and the GYPSEA paragraph.
   */
  datatype PolicyLines = PolicyLines(general: nat, bullets: seq<nat>, gypsea: nat)

  /**
   * The extra room a bullet takes beyond its first line: 6 per further line,
   * except the last bullet, whose text after its bold run takes 6 once if it
   * wraps at all.
   */
  function BulletExtra(i: nat, lines: nat): (dy: real)
    ensures dy >= 0.0
    ensures lines <= 1 ==> dy == 0.0
  {
    if lines <= 1 then 0.0
    else if i == 5 then 6.0
    else (lines - 1) as real * 6.0
  }

  function Bullets(f: Flow, lines: seq<nat>, i: nat): (r: Flow)
    requires Sound(f) && i <= |lines|
    ensures Sound(r) && r.header == f.header && r.origin == f.origin && r.pages >= f.pages
    ensures NewPages(r.trace) == NewPages(f.trace) + (r.pages - f.pages)
    ensures Headings(r.trace) == Headings(f.trace) && RowsDrawn(r.trace) == RowsDrawn(f.trace)
    decreases |lines| - i
  {
    if i == |lines| then f
    else
      var f1 := CheckPageBreak(f, 10.0);
      var extra := BulletExtra(i, lines[i]);
      var f2 := if extra > 0.0 then Advance(f1, extra) else f1;
      Bullets(Advance(f2, 5.0), lines, i + 1)
  }

  /**
   * The policy page, added unconditionally: a new page, the title (12), the
   * opening paragraph (4 per line + 5), the bullets' title (6), the bullets,
   * a gap (5), then the GYPSEA and NAILS sections, each after room for 15.
   */
  function PolicyPage(f: Flow, policy: PolicyLines): (r: Flow)
    requires Sound(f)
    ensures Sound(r) && r.header == f.header && r.origin == f.origin && r.pages >= f.pages + 1
    ensures NewPages(r.trace) == NewPages(f.trace) + (r.pages - f.pages)
    ensures Headings(r.trace) == Headings(f.trace) && RowsDrawn(r.trace) == RowsDrawn(f.trace)
  {
    var f1 := Push(f, NewPage);
    var f2 := Advance(Advance(f1, 12.0), policy.general as real * 4.0 + 5.0);
    var f3 := Bullets(Advance(f2, 6.0), policy.bullets, 0);
    var f4 := Advance(CheckPageBreak(Advance(f3, 5.0), 15.0), 6.0);
    var f5 := Advance(f4, policy.gypsea as real * 4.0 + 5.0);
    Advance(CheckPageBreak(f5, 15.0), 6.0)
  }

  // ---------------------------------------------------------------------
  // The whole export

  datatype Document = Document(pages: nat, trace: Trace, pageNumbers: seq<nat>)

  /** The first page: header drawn, the cursor under it. */
  function FirstPage(header: real): (f: Flow)
    requires header > 0.0
    ensures Sound(f) && f.pages == 1 && f.trace == Start
  {
    Flow(header, Cursor(Margin + header, 1), Margin + header, 1, Start)
  }

  /**
   * `generatePDF`'s layout: nothing without both dates and at least one day;
   * otherwise the client/villa/dates header (5, then 15), the title (15),
   * one block per day, the policy page, and the page numbers 1 to the last.
   */
  function Generate(arrival: Option<int>, departure: Option<int>, days: seq<DayData>,
                    logo: Option<Logo>, wrap: (string, Column) -> nat, policy: PolicyLines): (r: Option<Document>)
    ensures r.None? <==> arrival.None? || departure.None? || |days| == 0
    ensures r.Some? ==>
      && r.value.pages >= 2
      && |r.value.pageNumbers| == r.value.pages
      && (forall i :: 0 <= i < |r.value.pageNumbers| ==> r.value.pageNumbers[i] == i + 1)
  {
    if arrival.None? || departure.None? || |days| == 0 then None
    else
      var f := Layout(days, logo, wrap, policy);
      Some(Document(f.pages, f.trace, PageNumbers(f.pages)))
  }

  /** The numbers stamped at the foot of the pages, 1 to `n`, in page order. */
  function PageNumbers(n: nat): (r: seq<nat>)
    ensures |r| == n
    ensures forall i :: 0 <= i < n ==> r[i] == i + 1
  {
    seq(n, i => i + 1)
  }

  /** The flow of a document with at least one day. */
  function Layout(days: seq<DayData>, logo: Option<Logo>, wrap: (string, Column) -> nat, policy: PolicyLines): (f: Flow)
    ensures Sound(f) && f.origin == Cursor(Margin + HeaderHeight(logo), 1)
    ensures f.pages == 1 + NewPages(f.trace) && f.pages >= 2
    ensures Headings(f.trace) == Indices(0, |days|)
  {
    var lines := seq(|days|, k requires 0 <= k < |days| => DayLines(days[k], wrap));
    var f0 := FirstPage(HeaderHeight(logo));
    var f1 := Advance(Advance(Advance(f0, 5.0), 15.0), 15.0);
    var f2 := DayBlocks(f1, lines, 0);
    PolicyPage(f2, policy)
  }

  // ---------------------------------------------------------------------
  // Properties of the trace

  /** The trace as a sequence only moves down. */
  lemma {:induction false} PositiveMovesAll(t: Trace)
    requires PositiveMoves(t)
    ensures forall i :: 0 <= i < |Steps(t)| && Steps(t)[i].Move? ==> Steps(t)[i].dy > 0.0
  {
    if t.Then? {
      PositiveMovesAll(t.before);
      assert forall i :: 0 <= i < |Steps(t.before)| ==> Steps(t)[i] == Steps(t.before)[i];
    }
  }

  /**
   * The document as a trace: one title per day, in the order of the days;
   * every move down the page is a positive one; replaying the trace from the
   * first page gives the page count; and that count is one more than the
   * page breaks.
   */
  lemma GenerateTrace(arrival: Option<int>, departure: Option<int>, days: seq<DayData>,
                      logo: Option<Logo>, wrap: (string, Column) -> nat, policy: PolicyLines)
    requires arrival.Some? && departure.Some? && |days| > 0
    ensures var doc := Generate(arrival, departure, days, logo, wrap, policy).value;
      && Headings(doc.trace) == Indices(0, |days|)
      && (forall i :: 0 <= i < |Steps(doc.trace)| && Steps(doc.trace)[i].Move? ==> Steps(doc.trace)[i].dy > 0.0)
      && Replay(Cursor(Margin + HeaderHeight(logo), 1), doc.trace, HeaderHeight(logo)).pages == doc.pages
      && doc.pages == 1 + NewPages(doc.trace)
  {
    var f := Layout(days, logo, wrap, policy);
    PositiveMovesAll(f.trace);
  }
}
