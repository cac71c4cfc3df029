/** Character classes, decimal digit strings and the two number conversions
    of the JavaScript runtime the application leans on: `Number.prototype.toString`
    for non-negative integers and `parseInt(s, 10)`. */
module Text {
  import opened Wrappers

  predicate IsDigit(c: char) { '0' <= c <= '9' }

  /** The characters JavaScript treats as white space, both in `\s` of a
      regular expression and in the prefix `parseInt` skips. */
  predicate IsSpace(c: char) {
    || c == '\t' || c == '\n' || c == '\U{0B}' || c == '\U{0C}' || c == '\r'
    || c == ' ' || c == '\U{A0}' || c == '\U{1680}'
    || ('\U{2000}' <= c <= '\U{200A}')
    || c == '\U{2028}' || c == '\U{2029}' || c == '\U{202F}' || c == '\U{205F}'
    || c == '\U{3000}' || c == '\U{FEFF}'
  }

  predicate AllDigits(s: string) {
    forall i :: 0 <= i < |s| ==> IsDigit(s[i])
  }

  predicate NoSpace(s: string) {
    forall i :: 0 <= i < |s| ==> !IsSpace(s[i])
  }

  function DigitValue(c: char): (d: nat)
    requires IsDigit(c)
    ensures d < 10
  {
    c as int - '0' as int
  }

  function DigitChar(d: nat): (c: char)
    requires d < 10
    ensures IsDigit(c) && DigitValue(c) == d
  {
    ('0' as int + d) as char
  }

  /** The value of a decimal numeral, most significant digit first. */
  function DigitsValue(s: string): nat
    requires AllDigits(s)
  {
    if |s| == 0 then 0 else DigitsValue(s[..|s| - 1]) * 10 + DigitValue(s[|s| - 1])
  }

  /** Decimal rendering of a non-negative integer, as `n.toString()` prints it:
      no sign, no leading zero. */
  function NatToString(n: nat): (r: string)
    ensures |r| >= 1 && AllDigits(r)
    ensures DigitsValue(r) == n
    ensures r[0] != '0' || n == 0
    ensures n < 10 <==> |r| == 1
    ensures 10 <= n < 100 <==> |r| == 2
  {
    if n < 10 then [DigitChar(n)]
    else
      var prefix := NatToString(n / 10);
      var r := prefix + [DigitChar(n % 10)];
      assert r[..|r| - 1] == prefix;
      r
  }

  /** `i.toString()` for any integer: a minus sign in front of the magnitude. */
  function IntToString(i: int): (r: string)
    ensures i >= 0 ==> r == NatToString(i)
    ensures i < 0 ==> r == "-" + NatToString(-i)
  {
    if i < 0 then "-" + NatToString(-i) else NatToString(i)
  }

  /** `n.toString().padStart(2, "0")`. */
  function Pad2(n: nat): (r: string)
    ensures |r| >= 1 && AllDigits(r) && DigitsValue(r) == n
    ensures n < 100 ==> |r| == 2
    ensures n >= 10 ==> r == NatToString(n)
  {
    var s := NatToString(n);
    if |s| < 2 then
      var r := "0" + s;
      assert r[..1] == "0";
      r
    else s
  }

  /** Length of the longest run of characters satisfying `p` that starts at `i`. */
  function Span(s: string, i: nat, p: char -> bool): (k: nat)
    requires i <= |s|
    ensures i + k <= |s|
    decreases |s| - i
  {
    if i < |s| && p(s[i]) then 1 + Span(s, i + 1, p) else 0
  }

  /** The run ends at the end of `s` or at a character failing `p`. */
  lemma {:induction false} SpanStops(s: string, i: nat, p: char -> bool)
    requires i <= |s|
    ensures i + Span(s, i, p) == |s| || !p(s[i + Span(s, i, p)])
    decreases |s| - i
  {
    if i < |s| && p(s[i]) {
      SpanStops(s, i + 1, p);
    }
  }

  /** Every character of the run satisfies `p`. */
  lemma {:induction false} SpanAll(s: string, i: nat, p: char -> bool)
    requires i <= |s|
    ensures forall j :: i <= j < i + Span(s, i, p) ==> p(s[j])
    decreases |s| - i
  {
    if i < |s| && p(s[i]) {
      SpanAll(s, i + 1, p);
    }
  }

  /** The run at `i` is exactly `k` long when `k` characters satisfy `p` and
      the next one does not (or the string ends). */
  lemma {:induction false} SpanIs(s: string, i: nat, k: nat, p: char -> bool)
    requires i + k <= |s|
    requires forall j :: i <= j < i + k ==> p(s[j])
    requires i + k == |s| || !p(s[i + k])
    ensures Span(s, i, p) == k
    decreases k
  {
    if k > 0 {
      SpanIs(s, i + 1, k - 1, p);
    }
  }

  /** JavaScript's `parseInt(s, 10)`: skip leading white space, take an optional
      sign, then the longest run of decimal digits; no digit at all gives NaN,
      which is `None` here. */
  function ParseInt(s: string): (r: Option<int>)
    ensures r.Some? ==> exists i :: 0 <= i < |s| && IsDigit(s[i])
    ensures r.Some? && r.value < 0 ==> '-' in s
  {
    var w := Span(s, 0, IsSpace);
    var signed := w < |s| && (s[w] == '-' || s[w] == '+');
    var start := if signed then w + 1 else w;
    var d := Span(s, start, IsDigit);
    if d == 0 then None
    else
      SpanAll(s, start, IsDigit);
      var v: int := DigitsValue(s[start..start + d]);
      Some(if signed && s[w] == '-' then -v else v)
  }

  /** A string made of digits only parses to its decimal value. */
  lemma ParseIntOfDigits(s: string)
    requires |s| > 0 && AllDigits(s)
    ensures ParseInt(s) == Some(DigitsValue(s))
  {
    assert !IsSpace(s[0]);
    assert Span(s, 0, IsSpace) == 0;
    var d := Span(s, 0, IsDigit);
    SpanIs(s, 0, |s|, IsDigit);
    assert d == |s|;
    assert s[0..d] == s;
  }

  /** `parseInt` is the inverse of `toString` on non-negative integers. */
  lemma ParseIntOfNatToString(n: nat)
    ensures ParseInt(NatToString(n)) == Some(n)
  {
    ParseIntOfDigits(NatToString(n));
  }
}
