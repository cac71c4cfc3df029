/** The strings the PDF export prints (src/lib/pdfGenerator.ts): item times,
    day titles with ordinal suffixes, the header placeholders and the file
    name. */
module PdfText {
  import opened Wrappers
  import opened Text
  import TimePicker

  /** A match of `(\d{1,2}):(\d{2})`: the hour's value and the minute digits as text. */
  datatype ShortClock = ShortClock(hours: nat, minutes: string)

  /** The match of `(\d{1,2}):(\d{2})` that starts exactly at `i`. The greedy
      `\d{1,2}` first tries two digits; only when that fails does it fall back
      to one, which needs ':' right after the first digit. */
  function ShortClockAt(s: string, i: nat): (r: Option<ShortClock>)
    requires i <= |s|
    ensures r.Some? ==> r.value.hours < 100 && |r.value.minutes| == 2 && AllDigits(r.value.minutes)
  {
    if i + 5 <= |s| && IsDigit(s[i]) && IsDigit(s[i + 1]) && s[i + 2] == ':'
       && IsDigit(s[i + 3]) && IsDigit(s[i + 4])
    then Some(ShortClock(DigitValue(s[i]) * 10 + DigitValue(s[i + 1]), s[i + 3..i + 5]))
    else if i + 4 <= |s| && IsDigit(s[i]) && s[i + 1] == ':' && IsDigit(s[i + 2]) && IsDigit(s[i + 3])
    then Some(ShortClock(DigitValue(s[i]), s[i + 2..i + 4]))
    else None
  }

  /** The leftmost match at or after `i`. */
  function FindShortClock(s: string, i: nat): (r: Option<ShortClock>)
    requires i <= |s|
    ensures r.Some? ==> r.value.hours < 100 && |r.value.minutes| == 2 && AllDigits(r.value.minutes)
    decreases |s| - i
  {
    if i == |s| then None
    else
      match ShortClockAt(s, i)
      case Some(c) => Some(c)
      case None => FindShortClock(s, i + 1)
  }

  /** The search finds nothing exactly when the pattern matches at no position. */
  lemma {:induction false} FindShortClockNoMatch(s: string, i: nat)
    requires i <= |s|
    ensures FindShortClock(s, i).None? <==> forall k :: i <= k < |s| ==> ShortClockAt(s, k).None?
    decreases |s| - i
  {
    if i < |s| {
      var here := ShortClockAt(s, i);
      assert FindShortClock(s, i) == if here.Some? then here else FindShortClock(s, i + 1);
      if here.None? {
        FindShortClockNoMatch(s, i + 1);
      }
    }
  }

  /** The search returns the match at the leftmost position where the pattern matches. */
  lemma {:induction false} FindShortClockLeftmost(s: string, i: nat)
    requires i <= |s|
    ensures FindShortClock(s, i).Some? ==>
      exists k :: i <= k < |s| && ShortClockAt(s, k) == FindShortClock(s, i)
                  && forall q :: i <= q < k ==> ShortClockAt(s, q).None?
    decreases |s| - i
  {
    if i < |s| {
      var here := ShortClockAt(s, i);
      assert FindShortClock(s, i) == if here.Some? then here else FindShortClock(s, i + 1);
      if here.None? {
        FindShortClockLeftmost(s, i + 1);
        if FindShortClock(s, i + 1).Some? {
          var k :| i + 1 <= k < |s| && ShortClockAt(s, k) == FindShortClock(s, i + 1)
                   && forall q :: i + 1 <= q < k ==> ShortClockAt(s, q).None?;
          assert forall q :: i <= q < k ==> ShortClockAt(s, q).None?;
        }
      }
    }
  }

  /** `formatTimeForPDF`: the first "H:MM" or "HH:MM" in the string becomes
      "h:MMam" / "h:MMpm"; everything around that match, including any AM/PM
      the string already carries, is dropped. Text without such a match is
      printed as it is. */
  function FormatTimeForPdf(time: string): (r: string)
    ensures time == "" ==> r == ""
    ensures FindShortClock(time, 0).None? ==> r == time
    ensures FindShortClock(time, 0).Some? ==>
      var c := FindShortClock(time, 0).value;
      var h := TimePicker.Hour12(c.hours);
      && r == NatToString(h) + ":" + c.minutes + (if c.hours >= 12 then "pm" else "am")
      && 1 <= h <= 12
  {
    if time == "" then ""
    else
      match FindShortClock(time, 0)
      case None => time
      case Some(c) =>
        NatToString(TimePicker.Hour12(c.hours)) + ":" + c.minutes + (if c.hours >= 12 then "pm" else "am")
  }

  /** The time cell of a table row: an empty time prints "-". */
  function TimeCell(time: string): (r: string)
    ensures r != ""
    ensures time != "" ==> r == FormatTimeForPdf(time)
  {
    if time == "" then "-" else FormatTimeForPdf(time)
  }

  /** A 24-hour "HH:MM" prints with the hour on a 12-hour dial, the minutes
      verbatim and "pm" exactly from noon on. */
  lemma PdfOfTwentyFourHour(hours: nat, minutes: nat)
    requires hours < 24 && minutes < 60
    ensures FormatTimeForPdf(Pad2(hours) + ":" + Pad2(minutes))
         == NatToString(TimePicker.Hour12(hours)) + ":" + Pad2(minutes) + (if hours >= 12 then "pm" else "am")
  {
    var hh := Pad2(hours);
    var mm := Pad2(minutes);
    var s := hh + ":" + mm;
    assert |s| == 5 && s[0] == hh[0] && s[1] == hh[1] && s[2] == ':' && s[3..5] == mm;
    assert IsDigit(hh[0]) && IsDigit(hh[1]) && IsDigit(mm[0]) && IsDigit(mm[1]);
    assert DigitValue(hh[0]) * 10 + DigitValue(hh[1]) == hours by {
      assert hh[..1] == [hh[0]];
      assert DigitsValue(hh[..1]) == DigitValue(hh[0]);
    }
    ShortClockAtStart(s, hours, mm);
  }

  /** "HH:MM" at the very start of a string is the match. */
  lemma ShortClockAtStart(s: string, hours: nat, mm: string)
    requires |s| >= 5 && IsDigit(s[0]) && IsDigit(s[1]) && s[2] == ':' && IsDigit(s[3]) && IsDigit(s[4])
    requires DigitValue(s[0]) * 10 + DigitValue(s[1]) == hours && s[3..5] == mm
    ensures FindShortClock(s, 0) == Some(ShortClock(hours, mm))
  {
  }

  /** Where the single-digit hour of a stored picker time is matched. */
  lemma ShortClockOfOneDigit(h: nat, mm: string, rest: string)
    requires 1 <= h < 10 && |mm| == 2 && AllDigits(mm)
    ensures FindShortClock(NatToString(h) + ":" + mm + rest, 0) == Some(ShortClock(h, mm))
  {
    var s := NatToString(h) + ":" + mm + rest;
    assert s[1] == ':' && s[2] == mm[0] && s[3] == mm[1];
    assert s[2..4] == mm;
  }

  /** Where a two-digit hour, such as that of a stored picker time, is matched. */
  lemma ShortClockOfTwoDigits(h: nat, mm: string, rest: string)
    requires 10 <= h < 100 && |mm| == 2 && AllDigits(mm)
    ensures FindShortClock(NatToString(h) + ":" + mm + rest, 0) == Some(ShortClock(h, mm))
  {
    var hh := NatToString(h);
    var s := hh + ":" + mm + rest;
    assert s[0] == hh[0] && s[1] == hh[1] && s[2] == ':' && s[3] == mm[0] && s[4] == mm[1];
    assert s[3..5] == mm;
    assert hh == hh[..1] + [hh[1]];
    assert hh[..1] == [hh[0]];
  }

  /** The picker stores "h:MM AM|PM", and the PDF reads only the "h:MM" of it,
      taking the period from h alone: a time picked in the editor prints "pm"
      exactly when its dial hour is 12. So every afternoon time from 1 PM to
      11:59 PM prints as "am", and midnight prints as "12:MMpm". */
  lemma {:induction false} PdfOfPickedTime(hours: nat, minutes: nat)
    requires minutes < 100
    ensures var h := TimePicker.Hour12(hours);
      FormatTimeForPdf(TimePicker.HandleTimeChange(hours, minutes))
        == NatToString(h) + ":" + Pad2(minutes) + (if h == 12 then "pm" else "am")
  {
    var h := TimePicker.Hour12(hours);
    var rest := " " + TimePicker.PeriodText(TimePicker.PeriodOf(hours));
    var s := TimePicker.HandleTimeChange(hours, minutes);
    assert s == NatToString(h) + ":" + Pad2(minutes) + rest;
    if h < 10 {
      ShortClockOfOneDigit(h, Pad2(minutes), rest);
    } else {
      ShortClockOfTwoDigits(h, Pad2(minutes), rest);
    }
  }

  /** The discrepancy stated plainly: an afternoon hour picked in the editor
      comes out of the PDF as a morning time, and midnight as noon. */
  lemma PickedAfternoonPrintsAm(hours: nat, minutes: nat)
    requires minutes < 60
    ensures 13 <= hours <= 23 ==>
      FormatTimeForPdf(TimePicker.HandleTimeChange(hours, minutes))
        == NatToString(hours - 12) + ":" + Pad2(minutes) + "am"
    ensures hours == 0 ==>
      FormatTimeForPdf(TimePicker.HandleTimeChange(hours, minutes)) == "12:" + Pad2(minutes) + "pm"
  {
    PdfOfPickedTime(hours, minutes);
    if 13 <= hours <= 23 {
      AfternoonText(hours, Pad2(minutes));
    }
    if hours == 0 {
      MidnightText(Pad2(minutes));
    }
  }

  lemma AfternoonText(hours: nat, mm: string)
    requires 13 <= hours <= 23
    ensures var h := TimePicker.Hour12(hours);
      NatToString(h) + ":" + mm + (if h == 12 then "pm" else "am") == NatToString(hours - 12) + ":" + mm + "am"
  {
    TimePicker.SecondHalfOfDay(hours);
  }

  lemma MidnightText(mm: string)
    ensures var h := TimePicker.Hour12(0);
      NatToString(h) + ":" + mm + (if h == 12 then "pm" else "am") == "12:" + mm + "pm"
  {
    TwelveText();
  }

  lemma TwelveText()
    ensures NatToString(12) == "12"
  {
    assert NatToString(12) == NatToString(1) + [DigitChar(2)];
  }

  // ---------------------------------------------------------------------------
  // Day titles.

  /** `getOrdinalSuffix`: "th" for 4 to 20, otherwise by the last digit. */
  function OrdinalSuffix(day: nat): (r: string)
    ensures r == "st" || r == "nd" || r == "rd" || r == "th"
    ensures 4 <= day <= 20 ==> r == "th"
    ensures r == "st" ==> day % 10 == 1
    ensures r == "nd" ==> day % 10 == 2
    ensures r == "rd" ==> day % 10 == 3
  {
    if day > 3 && day < 21 then "th"
    else if day % 10 == 1 then "st"
    else if day % 10 == 2 then "nd"
    else if day % 10 == 3 then "rd"
    else "th"
  }

  /** The English rule for ordinals: 11, 12 and 13 take "th" in every hundred;
      otherwise 1, 2 and 3 as the last digit take "st", "nd" and "rd". */
  function EnglishOrdinal(n: nat): string {
    if 11 <= n % 100 <= 13 then "th"
    else if n % 10 == 1 then "st"
    else if n % 10 == 2 then "nd"
    else if n % 10 == 3 then "rd"
    else "th"
  }

  /** Over the days of a month the suffix follows the English rule. */
  lemma OrdinalSuffixIsEnglish(day: nat)
    requires 1 <= day <= 31
    ensures OrdinalSuffix(day) == EnglishOrdinal(day)
  {
  }

  /** The title of a day block, e.g. "WEDNESDAY 18th": the upper-cased weekday
      name, the day of the month and its ordinal suffix. */
  function DayTitle(weekday: string, dayOfMonth: nat): (r: string)
    ensures |r| > |weekday| && r[..|weekday|] == weekday && r[|weekday|] == ' '
    ensures r[|weekday| + 1..] == NatToString(dayOfMonth) + OrdinalSuffix(dayOfMonth)
    ensures 1 <= dayOfMonth <= 31 ==> r[|weekday| + 1..] == NatToString(dayOfMonth) + EnglishOrdinal(dayOfMonth)
  {
    assert 1 <= dayOfMonth <= 31 ==> OrdinalSuffix(dayOfMonth) == EnglishOrdinal(dayOfMonth) by {
      if 1 <= dayOfMonth <= 31 {
        OrdinalSuffixIsEnglish(dayOfMonth);
      }
    }
    weekday + " " + NatToString(dayOfMonth) + OrdinalSuffix(dayOfMonth)
  }

  // ---------------------------------------------------------------------------
  // Header values and file name.

  /** A header value cell: an empty client or villa name prints "XXX". */
  function OrPlaceholder(value: string): (r: string)
    ensures r != ""
    ensures value != "" ==> r == value
    ensures value == "" ==> r == "XXX"
  {
    if value == "" then "XXX" else value
  }

  /** Every maximal run of characters satisfying `p` replaced by one `sep`. */
  function ReplaceRuns(s: string, p: char -> bool, sep: char): string
    decreases |s|
  {
    if s == [] then []
    else if p(s[0]) then [sep] + ReplaceRuns(s[Span(s, 0, p)..], p, sep)
    else [s[0]] + ReplaceRuns(s[1..], p, sep)
  }

  /** What replacing runs guarantees: no character satisfying `p` is left, a
      string without one is unchanged, and nothing grows. */
  lemma {:induction false} ReplaceRunsFacts(s: string, p: char -> bool, sep: char)
    requires !p(sep)
    ensures var r := ReplaceRuns(s, p, sep);
      && (forall i :: 0 <= i < |r| ==> !p(r[i]))
      && ((forall i :: 0 <= i < |s| ==> !p(s[i])) ==> r == s)
      && |r| <= |s|
    decreases |s|
  {
    if s == [] {
    } else if p(s[0]) {
      var k := Span(s, 0, p);
      ReplaceRunsFacts(s[k..], p, sep);
      var t := ReplaceRuns(s[k..], p, sep);
      assert forall i :: 1 <= i < |[sep] + t| ==> ([sep] + t)[i] == t[i - 1];
    } else {
      ReplaceRunsFacts(s[1..], p, sep);
      var t := ReplaceRuns(s[1..], p, sep);
      assert forall i :: 1 <= i < |[s[0]] + t| ==> ([s[0]] + t)[i] == t[i - 1];
      if forall i :: 0 <= i < |s| ==> !p(s[i]) {
        assert forall i :: 0 <= i < |s[1..]| ==> s[1..][i] == s[i + 1];
        assert s == [s[0]] + s[1..];
      }
    }
  }

  /** `name.replace(/\s+/g, "_")`: every run of white space becomes one '_'. */
  function CollapseSpaces(s: string): (r: string)
    ensures NoSpace(r)
    ensures NoSpace(s) ==> r == s
    ensures |r| <= |s|
  {
    ReplaceRunsFacts(s, IsSpace, '_');
    ReplaceRuns(s, IsSpace, '_')
  }

  /** Splitting at one maximal run: the run becomes a single separator between
      the replaced parts on either side. */
  lemma {:induction false} ReplaceAtRun(a: string, w: string, b: string, p: char -> bool, sep: char)
    requires !p(sep)
    requires |w| > 0 && forall i :: 0 <= i < |w| ==> p(w[i])
    requires a == [] || !p(a[|a| - 1])
    requires b == [] || !p(b[0])
    ensures ReplaceRuns(a + w + b, p, sep) == ReplaceRuns(a, p, sep) + [sep] + ReplaceRuns(b, p, sep)
    decreases |a|, 1
  {
    if a == [] {
      var s := a + w + b;
      assert s == w + b;
      SpanIs(s, 0, |w|, p);
      assert s[|w|..] == b;
      assert ReplaceRuns(a, p, sep) == [];
    } else if p(a[0]) {
      ReplaceAtRunAfterSpan(a, w, b, p, sep);
    } else {
      ReplaceAtRunAfterChar(a, w, b, p, sep);
    }
  }

  /** The induction step when `a` opens with a run of its own. */
  lemma {:induction false} ReplaceAtRunAfterSpan(a: string, w: string, b: string, p: char -> bool, sep: char)
    requires !p(sep)
    requires |w| > 0 && forall i :: 0 <= i < |w| ==> p(w[i])
    requires |a| > 0 && p(a[0]) && !p(a[|a| - 1])
    requires b == [] || !p(b[0])
    ensures ReplaceRuns(a + w + b, p, sep) == ReplaceRuns(a, p, sep) + [sep] + ReplaceRuns(b, p, sep)
    decreases |a|, 0
  {
    var s := a + w + b;
    var k := Span(a, 0, p);
    SpanAll(a, 0, p);
    SpanStops(a, 0, p);
    assert forall i :: 0 <= i < k ==> s[i] == a[i];
    SpanIs(s, 0, k, p);
    assert s[k..] == a[k..] + w + b;
    assert a[k..][|a[k..]| - 1] == a[|a| - 1];
    ReplaceAtRun(a[k..], w, b, p, sep);
    var x := ReplaceRuns(a[k..], p, sep);
    var y := ReplaceRuns(b, p, sep);
    assert ReplaceRuns(s, p, sep) == [sep] + (x + [sep] + y);
    assert ReplaceRuns(a, p, sep) == [sep] + x;
    assert [sep] + (x + [sep] + y) == ([sep] + x) + [sep] + y;
  }

  /** The induction step when `a` opens with a character kept as it is. */
  lemma {:induction false} ReplaceAtRunAfterChar(a: string, w: string, b: string, p: char -> bool, sep: char)
    requires !p(sep)
    requires |w| > 0 && forall i :: 0 <= i < |w| ==> p(w[i])
    requires |a| > 0 && !p(a[0]) && !p(a[|a| - 1])
    requires b == [] || !p(b[0])
    ensures ReplaceRuns(a + w + b, p, sep) == ReplaceRuns(a, p, sep) + [sep] + ReplaceRuns(b, p, sep)
    decreases |a|, 0
  {
    var s := a + w + b;
    assert s[0] == a[0] && s[1..] == a[1..] + w + b;
    assert a[1..] == [] || a[1..][|a[1..]| - 1] == a[|a| - 1];
    ReplaceAtRun(a[1..], w, b, p, sep);
    var x := ReplaceRuns(a[1..], p, sep);
    var y := ReplaceRuns(b, p, sep);
    calc {
      ReplaceRuns(s, p, sep);
      [a[0]] + ReplaceRuns(s[1..], p, sep);
      [a[0]] + (x + [sep] + y);
      ([a[0]] + x) + [sep] + y;
      ReplaceRuns(a, p, sep) + [sep] + y;
    }
  }

  /** In a client name, each maximal run of white space becomes exactly one '_'. */
  lemma CollapseAtRun(a: string, w: string, b: string)
    requires |w| > 0 && forall i :: 0 <= i < |w| ==> IsSpace(w[i])
    requires a == [] || !IsSpace(a[|a| - 1])
    requires b == [] || !IsSpace(b[0])
    ensures CollapseSpaces(a + w + b) == CollapseSpaces(a) + "_" + CollapseSpaces(b)
  {
    ReplaceAtRun(a, w, b, IsSpace, '_');
  }

  /** The name of the downloaded file, given the export date already
      formatted as "yyyy-MM-dd": the client segment is dropped when there is
      no client name. */
  function FileName(clientName: string, today: string): (r: string)
    ensures clientName == "" ==> r == "Itinerary_" + today + ".pdf"
    ensures clientName != "" ==>
      r == "Itinerary_" + CollapseSpaces(clientName) + "_" + today + ".pdf"
    ensures r[..10] == "Itinerary_" && r[|r| - 4..] == ".pdf"
  {
    if clientName == "" then "Itinerary_" + today + ".pdf"
    else "Itinerary_" + CollapseSpaces(clientName) + "_" + today + ".pdf"
  }
}
