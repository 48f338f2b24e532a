/** `date.isoformat()` and its reading back: the full-date of RFC 3339,
    section 5.6. */
module Iso {
  import opened Attempts
  import opened Calendar
  import opened Text

  const THROUGH := " through "

  predicate IsDigit(c: char) {
    '0' <= c <= '9'
  }

  function DigitChar(k: int): (c: char)
    requires 0 <= k <= 9
    ensures IsDigit(c) && DigitValue(c) == k
  {
    ('0' as int + k) as char
  }

  function DigitValue(c: char): (k: int)
    requires IsDigit(c)
    ensures 0 <= k <= 9
  {
    c as int - '0' as int
  }

  function TwoDigits(n: int): (s: string)
    requires 0 <= n < 100
    ensures |s| == 2
  {
    [DigitChar(n / 10), DigitChar(n % 10)]
  }

  /** `date.isoformat()`: YYYY-MM-DD. */
  function IsoText(d: Date): (s: string)
    ensures IsIsoShape(s)
  {
    TwoDigits(d.year / 100) + TwoDigits(d.year % 100) + "-" + TwoDigits(d.month) + "-" + TwoDigits(d.day)
  }

  /** A full match of `\d{4}-\d{2}-\d{2}`. */
  predicate IsIsoShape(s: string) {
    && |s| == 10
    && IsDigit(s[0]) && IsDigit(s[1]) && IsDigit(s[2]) && IsDigit(s[3]) && s[4] == '-'
    && IsDigit(s[5]) && IsDigit(s[6]) && s[7] == '-'
    && IsDigit(s[8]) && IsDigit(s[9])
  }

  function Number2(a: char, b: char): int
    requires IsDigit(a) && IsDigit(b)
  {
    10 * DigitValue(a) + DigitValue(b)
  }

  /** `date.fromisoformat`, with None for its ValueError. */
  function IsoDate(s: string): Option<Date>
    requires IsIsoShape(s)
  {
    var y := 100 * Number2(s[0], s[1]) + Number2(s[2], s[3]);
    var m, d := Number2(s[5], s[6]), Number2(s[8], s[9]);
    if IsDate(y, m, d) then Some(CalendarDate(y, m, d)) else None
  }

  /** Printing then reading is the identity on dates. */
  lemma IsoRoundTrip(d: Date)
    ensures IsoDate(IsoText(d)) == Some(d)
  {
    var s := IsoText(d);
    assert s[0..2] == TwoDigits(d.year / 100) && s[2..4] == TwoDigits(d.year % 100);
    assert s[5..7] == TwoDigits(d.month) && s[8..10] == TwoDigits(d.day);
  }

  /** Reading then printing is the identity on the texts that name a date. */
  lemma IsoRoundTripText(s: string)
    requires IsIsoShape(s) && IsoDate(s).Some?
    ensures IsoText(IsoDate(s).value) == s
  {
    var d := IsoDate(s).value;
    Number2Digits(s[0], s[1]);
    Number2Digits(s[2], s[3]);
    Number2Digits(s[5], s[6]);
    Number2Digits(s[8], s[9]);
    assert d.year / 100 == Number2(s[0], s[1]) && d.year % 100 == Number2(s[2], s[3]);
  }

  lemma Number2Digits(a: char, b: char)
    requires IsDigit(a) && IsDigit(b)
    ensures 0 <= Number2(a, b) < 100 && TwoDigits(Number2(a, b)) == [a, b]
  {
  }

  /** "d through e", the text of an interval of whole days. */
  function IsoInterval(d: Date, e: Date): (s: string)
    ensures IsIsoInterval(s)
    ensures s[..10] == IsoText(d) && s[19..] == IsoText(e)
  {
    var s := IsoText(d) + THROUGH + IsoText(e);
    assert s[..10] == IsoText(d) && s[10..19] == THROUGH && s[19..] == IsoText(e);
    s
  }

  predicate IsIsoInterval(s: string) {
    |s| == 29 && IsIsoShape(s[..10]) && s[10..19] == THROUGH && IsIsoShape(s[19..])
  }

  lemma IsoShapeIsSolid(s: string)
    requires IsIsoShape(s)
    ensures forall i :: 0 <= i < |s| ==> !IsSpace(s[i])
  {
  }

  lemma IsoIntervalIsTidy(s: string)
    requires IsIsoInterval(s)
    ensures SingleSpaced(s)
  {
    IsoShapeIsSolid(s[..10]);
    IsoShapeIsSolid(s[19..]);
    hide IsSpace;
    assert forall i :: 0 <= i < 10 ==> s[i] == s[..10][i];
    assert forall i :: 19 <= i < 29 ==> s[i] == s[19..][i - 19];
    forall i | 0 <= i < |s| && IsSpace(s[i])
      ensures s[i] == ' ' && i + 1 < |s| && !IsSpace(s[i + 1])
    {
      assert 10 <= i < 19;
      assert s[i] == THROUGH[i - 10];
      ThroughSpaces(i - 10);
      assert i < 18 ==> s[i + 1] == THROUGH[i - 9];
    }
  }

  lemma ThroughSpaces(i: nat)
    requires i < 9 && IsSpace(THROUGH[i])
    ensures THROUGH[i] == ' ' && (i == 0 || i == 8) && !IsSpace(THROUGH[1])
  {
  }

  /** Texts of either form are already collapsed and start with a digit. */
  lemma IsoTextsAreTidy(s: string)
    requires IsIsoShape(s) || IsIsoInterval(s)
    ensures Strip(s) == s && Collapse(s) == s && CollapseRuns(s) == s
    ensures s != [] && IsDigit(s[0])
  {
    if IsIsoInterval(s) {
      IsoIntervalIsTidy(s);
      assert s[0] == s[..10][0];
    } else {
      IsoShapeIsSolid(s);
    }
    CollapseTidy(s);
    TidyIsCollapsed(s);
  }
}
