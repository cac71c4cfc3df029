/** The time picker of the item editor (src/components/ui/time-picker.tsx).
    It stores a 12-hour string such as "2:30 PM" on the item, reads the
    current hour and minute back out of that string with regular expressions,
    and offers hour, minute and AM/PM buttons that rewrite it. */
module TimePicker {
  import opened Wrappers
  import opened Text

  datatype Period = AM | PM

  /** An hour/minute pair as the picker reads it; neither part is range-checked. */
  datatype Clock = Clock(hours: nat, minutes: nat)

  /** The period the picker shows for an hour count (`hours >= 12 ? "PM" : "AM"`). */
  function PeriodOf(hours: int): Period {
    if hours >= 12 then PM else AM
  }

  function PeriodText(p: Period): string {
    match p
    case AM => "AM"
    case PM => "PM"
  }

  /** `hours % 12 || 12`: the hour on a 12-hour dial, also the picker's
      highlighted hour button (`displayHours`). */
  function Hour12(hours: nat): (h: nat)
    ensures 1 <= h <= 12
    ensures h % 12 == hours % 12
  {
    if hours % 12 == 0 then 12 else hours % 12
  }

  /** JavaScript's `%` by 12, which truncates toward zero. */
  function JsRem12(h: int): (r: int)
    ensures h >= 0 ==> 0 <= r < 12 && r == h % 12
    ensures h < 0 ==> -12 < r <= 0 && r % 12 == h % 12
  {
    if h >= 0 then h % 12
    else
      var q, rem := (-h) / 12, (-h) % 12;
      assert h == -12 * q - rem;
      assert -rem == h + 12 * q;
      -rem
  }

  /** Index of the first occurrence of `c` in `s`. */
  function FirstIndex(s: string, c: char): (i: nat)
    requires c in s
    ensures i < |s| && s[i] == c && c !in s[..i]
  {
    if s[0] == c then 0
    else
      var j := FirstIndex(s[1..], c);
      assert s[..j + 1] == [s[0]] + s[1..][..j];
      j + 1
  }

  /** `formatTime`: "HH:MM" to "h:MM AM|PM". The hour field is whatever precedes
      the first ':' and goes through `parseInt` (NaN counts as AM and prints 12);
      the minute field is copied verbatim up to the next ':'. An empty string
      stays empty and a string without ':' is returned as it is. */
  function FormatTime(time: string): (r: string)
    ensures time == "" ==> r == ""
    ensures ':' !in time ==> r == time
  {
    if time == "" then ""
    else if ':' !in time then time
    else
      var i := FirstIndex(time, ':');
      var rest := time[i + 1..];
      var minutesField := if ':' in rest then rest[..FirstIndex(rest, ':')] else rest;
      var hour := ParseInt(time[..i]);
      var period := if hour.Some? && hour.value >= 12 then PM else AM;
      var hour12 := if hour.None? || JsRem12(hour.value) == 0 then 12 else JsRem12(hour.value);
      IntToString(hour12) + ":" + minutesField + " " + PeriodText(period)
  }

  /** On a digit hour field the 12-hour rendering keeps the minute field and
      picks the period from the hour. */
  lemma FormatTimeOfFields(hh: string, mm: string)
    requires |hh| > 0 && AllDigits(hh) && ':' !in mm
    ensures FormatTime(hh + ":" + mm)
         == NatToString(Hour12(DigitsValue(hh))) + ":" + mm + " " + PeriodText(PeriodOf(DigitsValue(hh)))
  {
    var time := hh + ":" + mm;
    assert time[|hh|] == ':';
    assert ':' !in hh by {
      forall j | 0 <= j < |hh| ensures hh[j] != ':' { assert IsDigit(hh[j]); }
    }
    var i := FirstIndex(time, ':');
    assert i == |hh|;
    assert time[..i] == hh;
    assert time[i + 1..] == mm;
    ParseIntOfDigits(hh);
  }

  /** An hour field that `parseInt` reads as NaN prints as 12 AM, since NaN is
      neither at least 12 nor a non-zero remainder. */
  lemma FormatTimeNaNHour(hh: string, mm: string)
    requires ':' !in hh && ':' !in mm && ParseInt(hh).None?
    ensures FormatTime(hh + ":" + mm) == "12:" + mm + " AM"
  {
    var time := hh + ":" + mm;
    assert time[|hh|] == ':';
    var i := FirstIndex(time, ':');
    assert i == |hh|;
    assert time[..i] == hh;
    assert time[i + 1..] == mm;
    assert FormatTime(time) == IntToString(12) + ":" + mm + " " + PeriodText(AM);
    TwelveDigits();
  }

  lemma TwelveDigits()
    ensures IntToString(12) == "12"
  {
    assert NatToString(12) == NatToString(1) + [DigitChar(2)];
  }

  /** `handleTimeChange(hours, minutes)`: the string stored on the item after
      a pick, built by formatting the zero-padded "HH:MM". */
  function HandleTimeChange(hours: nat, minutes: nat): (r: string)
    ensures r == NatToString(Hour12(hours)) + ":" + Pad2(minutes) + " " + PeriodText(PeriodOf(hours))
  {
    assert ':' !in Pad2(minutes) by {
      forall j | 0 <= j < |Pad2(minutes)| ensures Pad2(minutes)[j] != ':' {
        assert IsDigit(Pad2(minutes)[j]);
      }
    }
    FormatTimeOfFields(Pad2(hours), Pad2(minutes));
    FormatTime(Pad2(hours) + ":" + Pad2(minutes))
  }

  // ---------------------------------------------------------------------------
  // Reading a stored time back: `parseTime`.

  /** What may follow `(\d+):(\d+)`: nothing required, or `\s*AM` / `\s*PM`
      matched case-insensitively. */
  datatype Tail = Bare | Marked(p: Period)

  function UpperLetter(p: Period): char {
    match p
    case AM => 'A'
    case PM => 'P'
  }

  function LowerLetter(p: Period): char {
    match p
    case AM => 'a'
    case PM => 'p'
  }

  predicate TailAt(s: string, k: nat, t: Tail)
    requires k <= |s|
  {
    match t
    case Bare => true
    case Marked(p) =>
      var w := Span(s, k, IsSpace);
      && k + w + 2 <= |s|
      && (s[k + w] == UpperLetter(p) || s[k + w] == LowerLetter(p))
      && (s[k + w + 1] == 'M' || s[k + w + 1] == 'm')
  }

  /** The match of `(\d+):(\d+)` plus tail `t` that starts exactly at `i`, if
      any. Each `\d+` takes the longest digit run there: a shorter run would
      leave a digit where ':', white space or a letter is needed, so no
      backtracking alternative can succeed. */
  function ClockAt(s: string, i: nat, t: Tail): Option<Clock>
    requires i <= |s|
  {
    var h := Span(s, i, IsDigit);
    if h == 0 || i + h >= |s| || s[i + h] != ':' then None
    else
      var j := i + h + 1;
      var m := Span(s, j, IsDigit);
      if m == 0 || !TailAt(s, j + m, t) then None
      else Some(ReadClock(s, i, h, j, m))
  }

  /** The two captured digit runs, `s[i..i+h]` and `s[j..j+m]`, as numbers. */
  function ReadClock(s: string, i: nat, h: nat, j: nat, m: nat): Clock
    requires i + h <= |s| && h == Span(s, i, IsDigit)
    requires j + m <= |s| && m == Span(s, j, IsDigit)
  {
    SpanAll(s, i, IsDigit);
    SpanAll(s, j, IsDigit);
    Clock(DigitsValue(s[i..i + h]), DigitsValue(s[j..j + m]))
  }

  /** `s.match(re)` without the global flag: the leftmost match at or after `i`. */
  function FindClock(s: string, i: nat, t: Tail): (r: Option<Clock>)
    requires i <= |s|
    decreases |s| - i
  {
    if i == |s| then None
    else
      match ClockAt(s, i, t)
      case Some(c) => Some(c)
      case None => FindClock(s, i + 1, t)
  }

  /** `match` finds nothing exactly when the pattern matches at no position. */
  lemma {:induction false} FindClockNoMatch(s: string, i: nat, t: Tail)
    requires i <= |s|
    ensures FindClock(s, i, t).None? <==> forall k :: i <= k < |s| ==> ClockAt(s, k, t).None?
    decreases |s| - i
  {
    if i < |s| {
      var here := ClockAt(s, i, t);
      assert FindClock(s, i, t) == if here.Some? then here else FindClock(s, i + 1, t);
      if here.None? {
        FindClockNoMatch(s, i + 1, t);
      }
    }
  }

  /** One step of the search: a match at `i`, or the search from `i + 1`. */
  lemma FindClockStep(s: string, i: nat, t: Tail)
    requires i < |s|
    ensures FindClock(s, i, t) == if ClockAt(s, i, t).Some? then ClockAt(s, i, t) else FindClock(s, i + 1, t)
  {
  }

  /** `match` returns the match at the leftmost position where the pattern matches. */
  lemma {:induction false} FindClockLeftmost(s: string, i: nat, t: Tail)
    requires i <= |s|
    ensures FindClock(s, i, t).Some? ==>
      exists k :: i <= k < |s| && ClockAt(s, k, t) == FindClock(s, i, t)
                  && forall q :: i <= q < k ==> ClockAt(s, q, t).None?
    decreases |s| - i
  {
    if i < |s| {
      FindClockStep(s, i, t);
      if ClockAt(s, i, t).None? {
        FindClockLeftmost(s, i + 1, t);
        if FindClock(s, i + 1, t).Some? {
          var k :| i + 1 <= k < |s| && ClockAt(s, k, t) == FindClock(s, i + 1, t)
                   && forall q :: i + 1 <= q < k ==> ClockAt(s, q, t).None?;
          assert forall q :: i <= q < k ==> ClockAt(s, q, t).None?;
        }
      }
    }
  }

  /** `parseTime`: a "h:mm PM" match anywhere wins, then "h:mm AM", then a bare
      "H:M" read as 24-hour; an empty or unrecognised string reads as 0:00. */
  function ParseTime(time: string): (c: Clock)
    ensures time == "" ==> c == Clock(0, 0)
  {
    if time == "" then Clock(0, 0)
    else
      match FindClock(time, 0, Marked(PM))
      case Some(pm) => Clock(if pm.hours == 12 then 12 else pm.hours + 12, pm.minutes)
      case None =>
        match FindClock(time, 0, Marked(AM))
        case Some(am) => Clock(if am.hours == 12 then 0 else am.hours, am.minutes)
        case None => FindClock(time, 0, Bare).GetOr(Clock(0, 0))
  }

  /** `s` holds neither case of the letter that opens period `p`. */
  predicate Lacks(s: string, p: Period) {
    forall j :: 0 <= j < |s| ==> s[j] != UpperLetter(p) && s[j] != LowerLetter(p)
  }

  lemma LacksConcat(a: string, b: string, p: Period)
    requires Lacks(a, p) && Lacks(b, p)
    ensures Lacks(a + b, p)
  {
    forall j | 0 <= j < |a + b|
      ensures (a + b)[j] != UpperLetter(p) && (a + b)[j] != LowerLetter(p)
    {
      if j >= |a| { assert (a + b)[j] == b[j - |a|]; }
    }
  }

  lemma DigitsLack(s: string, p: Period)
    requires AllDigits(s)
    ensures Lacks(s, p)
  {
    forall j | 0 <= j < |s| ensures s[j] != UpperLetter(p) && s[j] != LowerLetter(p) {
      assert IsDigit(s[j]);
    }
  }

  /** A match needs the period's letter somewhere after its start. */
  lemma {:induction false} FindClockNeedsLetter(s: string, i: nat, p: Period)
    requires i <= |s|
    requires forall j :: i <= j < |s| ==> s[j] != UpperLetter(p) && s[j] != LowerLetter(p)
    ensures FindClock(s, i, Marked(p)) == None
    decreases |s| - i
  {
    if i < |s| {
      FindClockNeedsLetter(s, i + 1, p);
    }
  }

  /** A match needs a ':' somewhere after its start. */
  lemma {:induction false} FindClockNeedsColon(s: string, i: nat, t: Tail)
    requires i <= |s|
    requires forall j :: i <= j < |s| ==> s[j] != ':'
    ensures FindClock(s, i, t) == None
    decreases |s| - i
  {
    if i < |s| {
      FindClockNeedsColon(s, i + 1, t);
    }
  }

  /** A string without ':' is unrecognised and reads as 0:00. */
  lemma ParseWithoutColon(time: string)
    requires ':' !in time
    ensures ParseTime(time) == Clock(0, 0)
  {
    FindClockNeedsColon(time, 0, Marked(PM));
    FindClockNeedsColon(time, 0, Marked(AM));
    FindClockNeedsColon(time, 0, Bare);
  }

  /** A string in which no digit run, ':' and digit run appear together reads
      as 0:00, whether or not it holds a ':'. */
  lemma ParseUnrecognised(time: string)
    requires forall k :: 0 <= k < |time| ==> ClockAt(time, k, Bare).None?
    ensures ParseTime(time) == Clock(0, 0)
  {
    if time != "" {
      forall k, p | 0 <= k < |time| ensures ClockAt(time, k, Marked(p)).None? {
        assert ClockAt(time, k, Bare).None?;
      }
      FindClockNoMatch(time, 0, Marked(PM));
      FindClockNoMatch(time, 0, Marked(AM));
      FindClockNoMatch(time, 0, Bare);
    }
  }

  /** Where the two numerals of `a:b` followed by `rest` sit. */
  lemma NumeralsLayout(a: string, b: string, rest: string)
    ensures var s := a + ":" + b + rest;
      && |a| + 1 + |b| <= |s|
      && s[0..|a|] == a && s[|a|] == ':' && s[|a| + 1..|a| + 1 + |b|] == b
      && (rest == "" || s[|a| + 1 + |b|] == rest[0])
  {
    var s := a + ":" + b + rest;
    assert s[0..|a|] == a && s[|a|] == ':' by {
      assert s == a + ([':'] + b + rest);
    }
    assert s[|a| + 1..|a| + 1 + |b|] == b && s[|a| + 1 + |b|..] == rest by {
      assert s == (a + ":") + b + rest;
    }
  }

  /** Two numerals `a` and `b` around a ':' at the start of `s`, followed by
      something that does not continue the minute digits, are matched at
      position 0 exactly when the tail fits there, with the two numerals as
      hours and minutes. */
  lemma ClockAtNumerals(s: string, a: string, b: string, t: Tail)
    requires |a| > 0 && AllDigits(a) && |b| > 0 && AllDigits(b)
    requires |a| + 1 + |b| <= |s|
    requires s[0..|a|] == a && s[|a|] == ':' && s[|a| + 1..|a| + 1 + |b|] == b
    requires |a| + 1 + |b| == |s| || !IsDigit(s[|a| + 1 + |b|])
    ensures ClockAt(s, 0, t).Some? == TailAt(s, |a| + 1 + |b|, t)
    ensures TailAt(s, |a| + 1 + |b|, t) ==> ClockAt(s, 0, t) == Some(Clock(DigitsValue(a), DigitsValue(b)))
  {
    NumeralRuns(s, a, b);
    ClockAtOf(s, |a|, |b|, t);
    ClockAtOfValue(s, |a|, |b|, t);
    ReadClockOf(s, a, b);
  }

  /** The two numerals are the whole digit runs at their positions. */
  lemma NumeralRuns(s: string, a: string, b: string)
    requires AllDigits(a) && AllDigits(b)
    requires |a| + 1 + |b| <= |s|
    requires s[0..|a|] == a && s[|a|] == ':' && s[|a| + 1..|a| + 1 + |b|] == b
    requires |a| + 1 + |b| == |s| || !IsDigit(s[|a| + 1 + |b|])
    ensures Span(s, 0, IsDigit) == |a|
    ensures Span(s, |a| + 1, IsDigit) == |b|
  {
    DigitRun(s, 0, |a|);
    DigitRun(s, |a| + 1, |a| + 1 + |b|);
  }

  /** A slice of digits not followed by a digit is the whole digit run there. */
  lemma DigitRun(s: string, i: nat, j: nat)
    requires i <= j <= |s| && AllDigits(s[i..j])
    requires j == |s| || !IsDigit(s[j])
    ensures Span(s, i, IsDigit) == j - i
  {
    forall k | i <= k < j ensures IsDigit(s[k]) {
      assert s[k] == s[i..j][k - i];
    }
    SpanIs(s, i, j - i, IsDigit);
  }

  /** With digit runs of `h` and `m` characters around a ':' at the start of
      `s`, there is a match there exactly when the tail fits after them ... */
  lemma ClockAtOf(s: string, h: nat, m: nat, t: Tail)
    requires 0 < h < |s| && s[h] == ':' && h + 1 + m <= |s|
    requires Span(s, 0, IsDigit) == h && 0 < m == Span(s, h + 1, IsDigit)
    ensures ClockAt(s, 0, t).Some? == TailAt(s, h + 1 + m, t)
  {
  }

  /** ... and then the match reads the two runs. */
  lemma ClockAtOfValue(s: string, h: nat, m: nat, t: Tail)
    requires 0 < h < |s| && s[h] == ':' && h + 1 + m <= |s|
    requires Span(s, 0, IsDigit) == h && 0 < m == Span(s, h + 1, IsDigit)
    ensures TailAt(s, h + 1 + m, t) ==> ClockAt(s, 0, t) == Some(ReadClock(s, 0, h, h + 1, m))
  {
  }

  /** Digit runs that spell `a` and `b` read as their decimal values. */
  lemma ReadClockOf(s: string, a: string, b: string)
    requires |a| + 1 + |b| <= |s| && AllDigits(a) && AllDigits(b)
    requires s[0..|a|] == a && s[|a| + 1..|a| + 1 + |b|] == b
    requires Span(s, 0, IsDigit) == |a| && Span(s, |a| + 1, IsDigit) == |b|
    ensures ReadClock(s, 0, |a|, |a| + 1, |b|) == Clock(DigitsValue(a), DigitsValue(b))
  {
  }

  /** " AM" / " PM" fits the tail pattern of its own period. */
  lemma PeriodTail(s: string, k: nat, p: Period)
    requires k <= |s| && s[k..] == " " + PeriodText(p)
    ensures TailAt(s, k, Marked(p))
  {
    assert s[k] == ' ' && s[k + 1] == UpperLetter(p) && s[k + 2] == 'M' by {
      assert s[k..][0] == ' ' && s[k..][1] == UpperLetter(p) && s[k..][2] == 'M';
    }
    assert !IsSpace(s[k + 1]);
    SpanIs(s, k, 1, IsSpace);
  }

  /** A match at the very start is the leftmost one. */
  lemma FindClockAtStart(s: string, t: Tail)
    requires ClockAt(s, 0, t).Some?
    ensures FindClock(s, 0, t) == ClockAt(s, 0, t)
  {
  }

  /** "hh:mm AM" / "hh:mm PM" is matched at its start by the pattern for its
      own period. */
  lemma TwelveHourMatch(hh: string, mm: string, p: Period)
    requires |hh| > 0 && AllDigits(hh) && |mm| > 0 && AllDigits(mm)
    ensures FindClock(hh + ":" + mm + " " + PeriodText(p), 0, Marked(p))
         == Some(Clock(DigitsValue(hh), DigitsValue(mm)))
  {
    var rest := " " + PeriodText(p);
    var s := hh + ":" + mm + rest;
    assert s == hh + ":" + mm + " " + PeriodText(p);
    NumeralsLayout(hh, mm, rest);
    assert s[|hh| + 1 + |mm|..] == rest by {
      assert s == (hh + ":" + mm) + rest;
    }
    TwelveHourMatchAt(s, hh, mm, p);
  }

  /** The same, for any string laid out as "hh:mm" followed by " AM" / " PM". */
  lemma TwelveHourMatchAt(s: string, hh: string, mm: string, p: Period)
    requires |hh| > 0 && AllDigits(hh) && |mm| > 0 && AllDigits(mm)
    requires |hh| + 1 + |mm| <= |s|
    requires s[0..|hh|] == hh && s[|hh|] == ':' && s[|hh| + 1..|hh| + 1 + |mm|] == mm
    requires s[|hh| + 1 + |mm|..] == " " + PeriodText(p)
    ensures FindClock(s, 0, Marked(p)) == Some(Clock(DigitsValue(hh), DigitsValue(mm)))
  {
    var k := |hh| + 1 + |mm|;
    PeriodTail(s, k, p);
    assert s[k] == s[k..][0] == ' ';
    ClockAtNumerals(s, hh, mm, Marked(p));
    FindClockAtStart(s, Marked(p));
  }

  /** An "AM" string contains no 'P', so the PM pattern finds nothing. */
  lemma AmTextMissesPm(hh: string, mm: string)
    requires AllDigits(hh) && AllDigits(mm)
    ensures FindClock(hh + ":" + mm + " " + PeriodText(AM), 0, Marked(PM)) == None
  {
    DigitsLack(hh, PM);
    DigitsLack(mm, PM);
    LacksConcat(hh, ":", PM);
    LacksConcat(hh + ":", mm, PM);
    LacksConcat(hh + ":" + mm, " ", PM);
    LacksConcat(hh + ":" + mm + " ", PeriodText(AM), PM);
    FindClockNeedsLetter(hh + ":" + mm + " " + PeriodText(AM), 0, PM);
  }

  /** Reading a 12-hour string: "12 AM" is hour 0, "12 PM" is hour 12, any
      other PM hour gains 12 and any other AM hour is kept. */
  lemma ParseTwelveHour(hh: string, mm: string, p: Period)
    requires |hh| > 0 && AllDigits(hh) && |mm| > 0 && AllDigits(mm)
    ensures var h := DigitsValue(hh);
      ParseTime(hh + ":" + mm + " " + PeriodText(p))
        == match p
           case AM => Clock(if h == 12 then 0 else h, DigitsValue(mm))
           case PM => Clock(if h == 12 then 12 else h + 12, DigitsValue(mm))
  {
    var s := hh + ":" + mm + " " + PeriodText(p);
    var c := Clock(DigitsValue(hh), DigitsValue(mm));
    TwelveHourMatch(hh, mm, p);
    assert s != "";
    if p == AM {
      AmTextMissesPm(hh, mm);
      assert FindClock(s, 0, Marked(PM)) == None;
      assert FindClock(s, 0, Marked(AM)) == Some(c);
    } else {
      assert FindClock(s, 0, Marked(PM)) == Some(c);
    }
  }

  /** A bare "H:M" of any two digit runs, zero-padded or not, is read as a 24-hour time. */
  lemma ParseBare(a: string, b: string)
    requires |a| > 0 && AllDigits(a) && |b| > 0 && AllDigits(b)
    ensures ParseTime(a + ":" + b) == Clock(DigitsValue(a), DigitsValue(b))
  {
    var s := a + ":" + b;
    assert s == a + ":" + b + "";
    NumeralsLayout(a, b, "");
    ClockAtNumerals(s, a, b, Bare);
    forall p: Period ensures FindClock(s, 0, Marked(p)) == None {
      DigitsLack(a, p);
      DigitsLack(b, p);
      LacksConcat(a, ":", p);
      LacksConcat(a + ":", b, p);
      FindClockNeedsLetter(s, 0, p);
    }
  }

  /** The zero-padded "HH:MM" the picker builds before formatting reads back as that time. */
  lemma ParseBarePadded(h: nat, m: nat)
    ensures ParseTime(Pad2(h) + ":" + Pad2(m)) == Clock(h, m)
  {
    ParseBare(Pad2(h), Pad2(m));
  }

  lemma SecondHalfOfDay(h: nat)
    requires 12 <= h < 24
    ensures h % 12 == h - 12
  {
    assert h == 12 * 1 + (h - 12);
  }

  /** The hour a picked hour count reads back as: itself below 24, otherwise
      folded into the PM half of the day. */
  function Folded(hours: nat): (r: nat)
    ensures r < 24
    ensures r == hours <==> hours < 24
  {
    if hours < 12 then hours
    else
      assert hours < 24 ==> hours % 12 == hours - 12 by {
        if hours < 24 { SecondHalfOfDay(hours); }
      }
      12 + hours % 12
  }

  /** What a pick reads back as: the picked time itself exactly when the hour
      is a real 24-hour hour; a larger hour comes back folded into the PM half. */
  lemma {:induction false} ParseAfterPick(hours: nat, minutes: nat)
    ensures ParseTime(HandleTimeChange(hours, minutes)) == Clock(Folded(hours), minutes)
    ensures ParseTime(HandleTimeChange(hours, minutes)) == Clock(hours, minutes) <==> hours < 24
  {
    var h12 := Hour12(hours);
    var s := HandleTimeChange(hours, minutes);
    ParseTwelveHour(NatToString(h12), Pad2(minutes), PeriodOf(hours));
    var back := ParseTime(s);
    assert back.minutes == minutes;
    if hours < 12 {
      assert back.hours == (if h12 == 12 then 0 else h12);
    } else {
      assert back.hours == (if h12 == 12 then 12 else h12 + 12);
    }
    ReadBackArithmetic(hours);
  }

  lemma ReadBackArithmetic(hours: nat)
    ensures hours < 12 ==> (if Hour12(hours) == 12 then 0 else Hour12(hours)) == Folded(hours)
    ensures hours >= 12 ==> (if Hour12(hours) == 12 then 12 else Hour12(hours) + 12) == Folded(hours)
  {
  }

  // ---------------------------------------------------------------------------
  // The buttons of the picker popover.

  /** What the popover shows for a stored time: the highlighted hour button,
      the highlighted period and the highlighted minute. */
  datatype View = View(dialHour: nat, period: Period, minutes: nat)

  function ViewOf(time: string): (v: View)
    ensures 1 <= v.dialHour <= 12
    ensures v.period == PM <==> ParseTime(time).hours >= 12
    ensures v.dialHour % 12 == ParseTime(time).hours % 12
  {
    var c := ParseTime(time);
    View(Hour12(c.hours), PeriodOf(c.hours), c.minutes)
  }

  /** The hour chosen by clicking dial button `h` (1 to 12): that hour in the
      period currently shown. */
  function HourButtonHours(hours: nat, h: nat): (r: nat)
    requires 1 <= h <= 12
    ensures Hour12(r) == h
    ensures r >= 12 <==> hours >= 12
    ensures r < 24
  {
    if PeriodOf(hours) == PM && h != 12 then h + 12
    else if PeriodOf(hours) == AM && h == 12 then 0
    else h
  }

  /** Clicking hour button `h` rewrites the stored time; the popover then shows
      `h` highlighted, the same period and the same minute. */
  function HourButton(time: string, h: nat): (r: string)
    requires 1 <= h <= 12
    ensures ViewOf(r) == ViewOf(time).(dialHour := h)
  {
    var c := ParseTime(time);
    ParseAfterPick(HourButtonHours(c.hours, h), c.minutes);
    HandleTimeChange(HourButtonHours(c.hours, h), c.minutes)
  }

  /** Clicking minute button `m` keeps the hour read from the stored time. */
  function MinuteButton(time: string, m: nat): (r: string)
    requires m < 60
    ensures ParseTime(time).hours < 24 ==> ParseTime(r) == ParseTime(time).(minutes := m)
  {
    var c := ParseTime(time);
    ParseAfterPick(c.hours, m);
    HandleTimeChange(c.hours, m)
  }

  /** The AM button: a PM hour loses 12, an AM hour stays. */
  function AmButtonHours(hours: nat): (r: nat)
    ensures PeriodOf(hours) == AM ==> r == hours
    ensures hours < 24 ==> r < 12 && Hour12(r) == Hour12(hours)
  {
    var n := if PeriodOf(hours) == PM then hours - 12 else hours;
    if n == 0 then 0 else n
  }

  /** The PM button before its `=== 24` guard: an AM hour gains 12. */
  function PmShift(hours: nat): (r: nat)
    ensures PeriodOf(hours) == PM ==> r == hours
    ensures hours < 24 ==> 12 <= r < 24 && Hour12(r) == Hour12(hours)
  {
    if PeriodOf(hours) == AM then hours + 12 else hours
  }

  /** The PM button, with its guard that maps 24 to 12. */
  function PmButtonHours(hours: nat): (r: nat)
    ensures hours < 24 ==> 12 <= r < 24 && Hour12(r) == Hour12(hours)
  {
    var n := PmShift(hours);
    if n == 24 then 12 else n
  }

  /** The guard `newHours === 24` fires only for a stored hour of exactly 24,
      which the picker's own strings never read back as: it is dead for every
      real hour. */
  lemma PmGuardOnlyAtTwentyFour(hours: nat)
    ensures PmShift(hours) == 24 <==> hours == 24
  {
  }

  /** Clicking AM keeps the dial hour and the minute, and shows AM. */
  function AmButton(time: string): (r: string)
    ensures ParseTime(time).hours < 24 ==> ViewOf(r) == ViewOf(time).(period := AM)
  {
    var c := ParseTime(time);
    ParseAfterPick(AmButtonHours(c.hours), c.minutes);
    HandleTimeChange(AmButtonHours(c.hours), c.minutes)
  }

  /** Clicking PM keeps the dial hour and the minute, and shows PM. */
  function PmButton(time: string): (r: string)
    ensures ParseTime(time).hours < 24 ==> ViewOf(r) == ViewOf(time).(period := PM)
  {
    var c := ParseTime(time);
    ParseAfterPick(PmButtonHours(c.hours), c.minutes);
    HandleTimeChange(PmButtonHours(c.hours), c.minutes)
  }

  /** The minute buttons: the values in [m, 60) that `% 5 === 0` keeps, in order. */
  function MinuteChoicesFrom(m: nat): (r: seq<nat>)
    ensures forall x :: x in r <==> m <= x < 60 && x % 5 == 0
    ensures forall i, j :: 0 <= i < j < |r| ==> r[i] < r[j]
    decreases 60 - m
  {
    if m >= 60 then []
    else
      var later := MinuteChoicesFrom(m + 1);
      var head := if m % 5 == 0 then [m] else [];
      assert forall k :: 0 <= k < |later| ==> m < later[k] by {
        forall k | 0 <= k < |later| ensures m < later[k] { assert later[k] in later; }
      }
      assert forall i :: |head| <= i < |head + later| ==> (head + later)[i] == later[i - |head|];
      head + later
  }

  /** `minutesList.filter((m) => m % 5 === 0)`: the multiples of 5 below 60,
      each once, ascending. */
  function MinuteChoices(): (r: seq<nat>)
    ensures forall x :: x in r <==> 0 <= x < 60 && x % 5 == 0
    ensures forall i, j :: 0 <= i < j < |r| ==> r[i] < r[j]
  {
    MinuteChoicesFrom(0)
  }
}
