/**
  Date-time values as the calendar component sees them: a proleptic-Gregorian
  date, a wall-clock time with microseconds and a fixed UTC offset, as carried
  by a time-zone-aware Python datetime.  This module gives their ordering (by
  the UTC instant they denote, as datetime and arrow compare aware values) and
  the two text forms the component emits: the `YYYY-MM-DD` date and the
  ISO-8601 text of `datetime.isoformat()`. Each text form has a parser beside
  it and a round-trip lemma.
*/
module Dates {
  import opened Optional

  /** Fields of an aware datetime; `utcOffset` is in seconds east of UTC. */
  datatype DateTime = DateTime(
    year: int, month: int, day: int,
    hour: int, minute: int, second: int, microsecond: int,
    utcOffset: int)

  predicate IsLeapYear(y: int) {
    y % 4 == 0 && (y % 100 != 0 || y % 400 == 0)
  }

  function DaysInMonth(y: int, m: int): int
    requires 1 <= m <= 12
  {
    if m == 2 then (if IsLeapYear(y) then 29 else 28)
    else if m == 4 || m == 6 || m == 9 || m == 11 then 30
    else 31
  }

  /** The ranges a Python datetime enforces (offsets are whole seconds here). */
  predicate Valid(t: DateTime) {
    && 1 <= t.year <= 9999
    && 1 <= t.month <= 12
    && 1 <= t.day <= DaysInMonth(t.year, t.month)
    && 0 <= t.hour < 24
    && 0 <= t.minute < 60
    && 0 <= t.second < 60
    && 0 <= t.microsecond < 1000000
    && -86400 < t.utcOffset < 86400
  }

  type Moment = t: DateTime | Valid(t) witness DateTime(1970, 1, 1, 0, 0, 0, 0, 0)

  /** Days from 1970-01-01 to the given proleptic-Gregorian date. */
  function DaysFromCivil(y: int, m: int, d: int): int
    requires 1 <= m <= 12
  {
    var y' := if m <= 2 then y - 1 else y;
    var era := y' / 400;
    var yoe := y' - era * 400;
    var mp := if m > 2 then m - 3 else m + 9;
    var doy := (153 * mp + 2) / 5 + d - 1;
    var doe := yoe * 365 + yoe / 4 - yoe / 100 + doy;
    era * 146097 + doe - 719468
  }

  /** The UTC instant a moment denotes, in microseconds since the epoch. */
  function Instant(t: Moment): int {
    var secs := DaysFromCivil(t.year, t.month, t.day) * 86400
      + t.hour * 3600 + t.minute * 60 + t.second - t.utcOffset;
    secs * 1000000 + t.microsecond
  }

  // ---------------------------------------------------------------------------
  // Fixed-width decimal digits (Python's "%0Nd" for a value below 10^N)

  function Pow10(n: nat): nat {
    if n == 0 then 1 else 10 * Pow10(n - 1)
  }

  predicate IsDigit(c: char) {
    '0' <= c <= '9'
  }

  predicate AllDigits(s: string) {
    s == [] || (AllDigits(s[..|s| - 1]) && IsDigit(s[|s| - 1]))
  }

  function DigitChar(d: nat): (c: char)
    requires d < 10
    ensures IsDigit(c)
  {
    ('0' as int + d) as char
  }

  /** `n` written in exactly `w` decimal digits, with leading zeros. */
  function Pad(n: nat, w: nat): (s: string)
    requires n < Pow10(w)
    ensures |s| == w
  {
    if w == 0 then ""
    else
      assert n / 10 < Pow10(w - 1);
      Pad(n / 10, w - 1) + [DigitChar(n % 10)]
  }

  /** The number a string of decimal digits reads as. */
  function DigitsValue(s: string): nat
    requires AllDigits(s)
  {
    if s == [] then 0
    else DigitsValue(s[..|s| - 1]) * 10 + (s[|s| - 1] as int - '0' as int)
  }

  lemma {:induction false} PadRoundTrip(n: nat, w: nat)
    requires n < Pow10(w)
    ensures AllDigits(Pad(n, w)) && DigitsValue(Pad(n, w)) == n
  {
    if w > 0 {
      var s := Pad(n, w);
      assert s[..|s| - 1] == Pad(n / 10, w - 1);
      PadRoundTrip(n / 10, w - 1);
    }
  }

  // ---------------------------------------------------------------------------
  // The `YYYY-MM-DD` date text

  /** The date fields of `t` as `YYYY-MM-DD`; no time and no zone. */
  function DateText(t: Moment): string {
    Pad(t.year, 4) + "-" + Pad(t.month, 2) + "-" + Pad(t.day, 2)
  }

  /** Reads `YYYY-MM-DD` back as (year, month, day). */
  function ParseDate(s: string): Option<(int, int, int)> {
    if |s| == 10 && s[4] == '-' && s[7] == '-'
       && AllDigits(s[..4]) && AllDigits(s[5..7]) && AllDigits(s[8..])
    then Some((DigitsValue(s[..4]), DigitsValue(s[5..7]), DigitsValue(s[8..])))
    else None
  }

  /** `YYYY-MM-DD` made of digit fields reads back as those fields' values. */
  lemma ParseDateOf(y: string, m: string, d: string)
    requires |y| == 4 && |m| == 2 && |d| == 2 && AllDigits(y) && AllDigits(m) && AllDigits(d)
    ensures ParseDate(y + "-" + m + "-" + d) == Some((DigitsValue(y), DigitsValue(m), DigitsValue(d)))
  {
    var s := y + "-" + m + "-" + d;
    assert s[..4] == y && s[5..7] == m && s[8..] == d;
  }

  lemma DateTextRoundTrip(t: Moment)
    ensures ParseDate(DateText(t)) == Some((t.year, t.month, t.day))
  {
    PadRoundTrip(t.year, 4);
    PadRoundTrip(t.month, 2);
    PadRoundTrip(t.day, 2);
    ParseDateOf(Pad(t.year, 4), Pad(t.month, 2), Pad(t.day, 2));
  }

  /** Two moments have the same date text exactly when their date fields agree. */
  lemma DateTextInjective(t1: Moment, t2: Moment)
    ensures DateText(t1) == DateText(t2) <==>
            (t1.year, t1.month, t1.day) == (t2.year, t2.month, t2.day)
  {
    DateTextRoundTrip(t1);
    DateTextRoundTrip(t2);
  }

  // ---------------------------------------------------------------------------
  // The ISO-8601 text of datetime.isoformat(): date, 'T', HH:MM:SS, a
  // ".ffffff" part only when the microseconds are non-zero, and the offset
  // as +HH:MM, with :SS added only when the offset has a seconds part.

  function ClockText(t: Moment): string {
    Pad(t.hour, 2) + ":" + Pad(t.minute, 2) + ":" + Pad(t.second, 2)
  }

  function FractionText(t: Moment): string {
    if t.microsecond == 0 then "" else "." + Pad(t.microsecond, 6)
  }

  function OffsetText(off: int): string
    requires -86400 < off < 86400
  {
    (if off < 0 then "-" else "+") + OffsetMagnitudeText(if off < 0 then -off else off)
  }

  /** `HH:MM` for a whole number of seconds, with `:SS` when the seconds are non-zero. */
  function OffsetMagnitudeText(a: nat): string
    requires a < 86400
  {
    OffsetPartsText(a / 3600, a % 3600 / 60, a % 60)
  }

  function OffsetPartsText(hh: nat, mm: nat, ss: nat): string
    requires hh < 100 && mm < 100 && ss < 100
  {
    Pad(hh, 2) + ":" + Pad(mm, 2) + (if ss != 0 then ":" + Pad(ss, 2) else "")
  }

  function IsoFormat(t: Moment): string {
    DateText(t) + "T" + ClockText(t) + FractionText(t) + OffsetText(t.utcOffset)
  }

  function ParseClock(s: string): Option<(int, int, int)> {
    if |s| == 8 && s[2] == ':' && s[5] == ':'
       && AllDigits(s[..2]) && AllDigits(s[3..5]) && AllDigits(s[6..])
    then Some((DigitsValue(s[..2]), DigitsValue(s[3..5]), DigitsValue(s[6..])))
    else None
  }

  /** Reads `+HH:MM` or `+HH:MM:SS` (or with `-`) as seconds east of UTC. */
  function ParseOffset(s: string): Option<int> {
    if |s| >= 1 && (s[0] == '+' || s[0] == '-') then
      match ParseOffsetMagnitude(s[1..])
      case Some(a) => Some(if s[0] == '-' then -a else a)
      case None => None
    else None
  }

  function ParseOffsetMagnitude(s: string): Option<int> {
    if (|s| == 5 || (|s| == 8 && s[5] == ':' && AllDigits(s[6..])))
       && s[2] == ':' && AllDigits(s[..2]) && AllDigits(s[3..5])
    then
      Some(DigitsValue(s[..2]) * 3600 + DigitsValue(s[3..5]) * 60
        + (if |s| == 8 then DigitsValue(s[6..]) else 0))
    else None
  }

  /** Reads the part after the seconds: an optional `.ffffff`, then the offset. */
  function ParseTail(s: string): Option<(int, int)> {
    if |s| >= 7 && s[0] == '.' then
      if AllDigits(s[1..7]) then
        match ParseOffset(s[7..])
        case Some(off) => Some((DigitsValue(s[1..7]), off))
        case None => None
      else None
    else
      match ParseOffset(s)
      case Some(off) => Some((0, off))
      case None => None
  }

  /** Reads ISO-8601 text of the shape IsoFormat writes back into its fields. */
  function ParseIso(s: string): Option<DateTime> {
    if |s| < 19 || s[10] != 'T' then None
    else
      match (ParseDate(s[..10]), ParseClock(s[11..19]), ParseTail(s[19..]))
      case (Some((y, mo, d)), Some((h, mi, se)), Some((us, off))) =>
        Some(DateTime(y, mo, d, h, mi, se, us, off))
      case _ => None
  }

  lemma ClockTextRoundTrip(t: Moment)
    ensures ParseClock(ClockText(t)) == Some((t.hour, t.minute, t.second))
  {
    var s := ClockText(t);
    assert s[..2] == Pad(t.hour, 2) && s[3..5] == Pad(t.minute, 2) && s[6..] == Pad(t.second, 2);
    PadRoundTrip(t.hour, 2);
    PadRoundTrip(t.minute, 2);
    PadRoundTrip(t.second, 2);
  }

  lemma OffsetSplit(a: int)
    requires 0 <= a < 86400
    ensures a / 3600 < 24 && a % 3600 / 60 < 60 && a % 60 < 60
    ensures a == a / 3600 * 3600 + a % 3600 / 60 * 60 + a % 60
  {
  }

  /** `HH:MM` made of two-digit fields reads back as seconds. */
  lemma ParseHoursMinutes(h: string, m: string)
    requires |h| == 2 && |m| == 2 && AllDigits(h) && AllDigits(m)
    ensures ParseOffsetMagnitude(h + ":" + m) == Some(DigitsValue(h) * 3600 + DigitsValue(m) * 60)
  {
    var s := h + ":" + m;
    assert s[..2] == h && s[3..5] == m;
  }

  /** An offset with a seconds part is written, and read back, as `HH:MM:SS`. */
  lemma OffsetSecondsRoundTrip(hh: nat, mm: nat, ss: nat)
    requires hh < 100 && mm < 100 && 0 < ss < 100
    ensures ParseOffsetMagnitude(OffsetPartsText(hh, mm, ss)) == Some(hh * 3600 + mm * 60 + ss)
  {
    var s := OffsetPartsText(hh, mm, ss);
    PadRoundTrip(hh, 2);
    PadRoundTrip(mm, 2);
    PadRoundTrip(ss, 2);
    assert s[..2] == Pad(hh, 2) && s[3..5] == Pad(mm, 2) && s[6..] == Pad(ss, 2);
  }

  lemma OffsetPartsRoundTrip(hh: nat, mm: nat, ss: nat)
    requires hh < 100 && mm < 100 && ss < 100
    ensures ParseOffsetMagnitude(OffsetPartsText(hh, mm, ss)) == Some(hh * 3600 + mm * 60 + ss)
  {
    if ss != 0 {
      OffsetSecondsRoundTrip(hh, mm, ss);
    } else {
      PadRoundTrip(hh, 2);
      PadRoundTrip(mm, 2);
      ParseHoursMinutes(Pad(hh, 2), Pad(mm, 2));
      assert OffsetPartsText(hh, mm, ss) == Pad(hh, 2) + ":" + Pad(mm, 2);
    }
  }

  lemma OffsetMagnitudeRoundTrip(a: nat)
    requires a < 86400
    ensures ParseOffsetMagnitude(OffsetMagnitudeText(a)) == Some(a)
  {
    var hh, mm, ss := a / 3600, a % 3600 / 60, a % 60;
    OffsetSplit(a);
    assert OffsetMagnitudeText(a) == OffsetPartsText(hh, mm, ss);
    OffsetPartsRoundTrip(hh, mm, ss);
    assert hh * 3600 + mm * 60 + ss == a;
  }

  lemma OffsetTextRoundTrip(off: int)
    requires -86400 < off < 86400
    ensures ParseOffset(OffsetText(off)) == Some(off)
  {
    var a := if off < 0 then -off else off;
    var s := OffsetText(off);
    assert s[1..] == OffsetMagnitudeText(a);
    OffsetMagnitudeRoundTrip(a);
  }

  lemma TailRoundTrip(t: Moment)
    ensures ParseTail(FractionText(t) + OffsetText(t.utcOffset)) == Some((t.microsecond, t.utcOffset))
  {
    var o := OffsetText(t.utcOffset);
    OffsetTextRoundTrip(t.utcOffset);
    if t.microsecond != 0 {
      var s := FractionText(t) + o;
      assert s[1..7] == Pad(t.microsecond, 6) && s[7..] == o;
      PadRoundTrip(t.microsecond, 6);
    } else {
      assert FractionText(t) + o == o;
    }
  }

  /** The ISO text keeps every field: it reads back as the moment itself. */
  lemma IsoRoundTrip(t: Moment)
    ensures ParseIso(IsoFormat(t)) == Some(t)
  {
    var s := IsoFormat(t);
    var tail := FractionText(t) + OffsetText(t.utcOffset);
    assert s == DateText(t) + "T" + ClockText(t) + tail;
    assert s[..10] == DateText(t) && s[11..19] == ClockText(t) && s[19..] == tail;
    DateTextRoundTrip(t);
    ClockTextRoundTrip(t);
    TailRoundTrip(t);
  }

  // ---------------------------------------------------------------------------
  // Sample renderings

  lemma DateTextExample(t: Moment)
    requires t.year == 2024 && t.month == 3 && t.day == 1
    ensures DateText(t) == "2024-03-01"
  {
  }

  lemma ClockTextExample(t: Moment)
    requires t.hour == 14 && t.minute == 30 && t.second == 0
    ensures ClockText(t) == "14:30:00"
  {
  }

  /** Two hours east of UTC; an offset with no seconds part prints as `+HH:MM`. */
  lemma OffsetTextExample()
    ensures OffsetText(7200) == "+02:00"
  {
  }
}
