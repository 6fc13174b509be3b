/**
 * Dates as the editor handles them: the wall clock `now` (an explicit
 * parameter here), Go's zero-padded `Format` layouts, and the three
 * `time.Parse` layouts the save path tries on a front-matter date.
 */
module Dates {
  import opened Wrappers
  import opened Text

  type Year = y: int | 0 <= y <= 9999
  type MonthNumber = m: int | 1 <= m <= 12 witness 1
  type DayNumber = d: int | 1 <= d <= 31 witness 1
  type Hour = h: int | 0 <= h <= 23
  type Sixty = m: int | 0 <= m <= 59

  /** A reading of the wall clock (`time.Now()`), or a file's modification time. */
  datatype Instant = Instant(year: Year, month: MonthNumber, day: DayNumber,
                             hour: Hour, minute: Sixty, second: Sixty)
  {
    /** The day exists in its month. */
    predicate IsCalendarDate() { day <= DaysIn(month, year) }
  }

  predicate IsLeap(y: int) { y % 4 == 0 && (y % 100 != 0 || y % 400 == 0) }

  /** Go's `daysIn`. */
  function DaysIn(m: int, y: int): int
    requires 1 <= m <= 12
  {
    if m == 2 then (if IsLeap(y) then 29 else 28)
    else if m == 4 || m == 6 || m == 9 || m == 11 then 30
    else 31
  }

  // ---------------------------------------------------------------------
  // Decimal digits

  function DigitValue(c: char): nat
    requires IsDigit(c)
  {
    c as int - '0' as int
  }

  /** The value of a string of decimal digits. */
  function Value(s: string): nat
    requires AllDigits(s)
  {
    if s == [] then 0 else 10 * Value(s[..|s| - 1]) + DigitValue(s[|s| - 1])
  }

  function Pow10(w: nat): nat
  {
    if w == 0 then 1 else 10 * Pow10(w - 1)
  }

  /** `n` in decimal, zero-padded to width `w` (the digits of layouts "2006", "01", ...). */
  function Pad(n: nat, w: nat): (r: string)
    ensures |r| == w && AllDigits(r)
  {
    if w == 0 then "" else Pad(n / 10, w - 1) + [('0' as int + n % 10) as char]
  }

  /** Reading back a padded number gives the number, when it fits the width. */
  lemma {:induction false} PadValue(n: nat, w: nat)
    requires n < Pow10(w)
    ensures Value(Pad(n, w)) == n
  {
    if w > 0 {
      PadValue(n / 10, w - 1);
      var r := Pad(n, w);
      assert r[..w - 1] == Pad(n / 10, w - 1);
    }
  }

  // ---------------------------------------------------------------------
  // Formatting an instant

  /** `t.Format("2006")`. */
  function YearText(t: Instant): string { Pad(t.year, 4) }

  /** `t.Format("01")`. */
  function MonthText(t: Instant): string { Pad(t.month, 2) }

  /** `t.Format("2006-01-02")`, the listing's fallback date. */
  function DateText(t: Instant): string
  {
    Pad(t.year, 4) + "-" + Pad(t.month, 2) + "-" + Pad(t.day, 2)
  }

  /** `t.Format("20060102-150405")`, the suffix that makes a new post's name unique. */
  function Stamp(t: Instant): string
  {
    Pad(t.year, 4) + Pad(t.month, 2) + Pad(t.day, 2) + "-"
      + Pad(t.hour, 2) + Pad(t.minute, 2) + Pad(t.second, 2)
  }

  /** The stamp is eight digits, a hyphen and six digits. */
  lemma StampShape(t: Instant)
    ensures |Stamp(t)| == 15
    ensures AllDigits(Stamp(t)[..8]) && Stamp(t)[8] == '-' && AllDigits(Stamp(t)[9..])
  {
    var s := Stamp(t);
    assert s[..8] == Pad(t.year, 4) + Pad(t.month, 2) + Pad(t.day, 2);
    assert s[9..] == Pad(t.hour, 2) + Pad(t.minute, 2) + Pad(t.second, 2);
  }

  // ---------------------------------------------------------------------
  // Parsing: the layouts "2006-01-02", "2006-01-02 15:04:05" and RFC 3339
  // ("2006-01-02T15:04:05Z07:00"), read as Go's time.Parse reads them.

  /**
   * The text starts with layout "2006-01-02": a four-digit year, a two-digit
   * month from 01 to 12 and a two-digit day that exists in that month.
   */
  predicate HasDatePrefix(v: string)
  {
    && |v| >= 10
    && AllDigits(v[..4]) && v[4] == '-' && AllDigits(v[5..7]) && v[7] == '-' && AllDigits(v[8..10])
    && 1 <= Value(v[5..7]) <= 12
    && 1 <= Value(v[8..10]) <= DaysIn(Value(v[5..7]), Value(v[..4]))
  }

  /** Two digits whose value is below `bound`; returns what follows them. */
  function TwoDigitsBelow(t: string, bound: nat): Option<string>
  {
    if |t| >= 2 && IsDigit(t[0]) && IsDigit(t[1]) && Value(t[..2]) < bound then Some(t[2..]) else None
  }

  /** Layout "15": one or two digits below 24 (two digits are taken whenever present). */
  function HourRest(t: string): Option<string>
  {
    if |t| >= 2 && IsDigit(t[0]) && IsDigit(t[1]) then
      (if Value(t[..2]) < 24 then Some(t[2..]) else None)
    else if |t| >= 1 && IsDigit(t[0]) then Some(t[1..])
    else None
  }

  /** Drops a leading run of digits. */
  function DropDigits(t: string): string
  {
    if t != [] && IsDigit(t[0]) then DropDigits(t[1..]) else t
  }

  /** Fractional seconds the layout does not name are still accepted: '.' or ',' and digits. */
  function FractionRest(t: string): string
  {
    if |t| >= 2 && (t[0] == '.' || t[0] == ',') && IsDigit(t[1]) then DropDigits(t[1..]) else t
  }

  /** Layout "15:04:05" (and any fraction); returns what follows. */
  function ClockRest(t: string): Option<string>
  {
    match HourRest(t)
    case None => None
    case Some(a) =>
      if a == [] || a[0] != ':' then None
      else match TwoDigitsBelow(a[1..], 60)
        case None => None
        case Some(b) =>
          if b == [] || b[0] != ':' then None
          else match TwoDigitsBelow(b[1..], 60)
            case None => None
            case Some(c) => Some(FractionRest(c))
  }

  /** Layout "Z07:00": `Z`, or a sign and an offset hh:mm (Go allows up to 24 and 60). */
  predicate IsZone(z: string)
  {
    || z == "Z"
    || (&& |z| == 6 && (z[0] == '+' || z[0] == '-')
        && IsDigit(z[1]) && IsDigit(z[2]) && z[3] == ':' && IsDigit(z[4]) && IsDigit(z[5])
        && Value(z[1..3]) <= 24 && Value(z[4..6]) <= 60)
  }

  /** `time.Parse(time.RFC3339, v)` succeeds. */
  predicate ParsesRFC3339(v: string)
  {
    HasDatePrefix(v) && |v| > 10 && v[10] == 'T' &&
    match ClockRest(v[11..])
    case None => false
    case Some(z) => IsZone(z)
  }

  /** `time.Parse("2006-01-02", v)` succeeds. */
  predicate ParsesDate(v: string)
  {
    HasDatePrefix(v) && |v| == 10
  }

  /** Drops a leading run of U+0020 spaces (other white space is kept). */
  function DropBlanks(t: string): (r: string)
    ensures |r| <= |t| && r == t[|t| - |r|..]
    ensures r != [] ==> r[0] != ' '
    ensures forall i :: 0 <= i < |t| - |r| ==> t[i] == ' '
  {
    if t != [] && t[0] == ' ' then DropBlanks(t[1..]) else t
  }

  /**
   * `time.Parse("2006-01-02 15:04:05", v)` succeeds. A space of the layout
   * matches a whole run of spaces in the value, so the clock may follow the
   * date after one or more spaces.
   */
  predicate ParsesDateTime(v: string)
  {
    HasDatePrefix(v) && |v| > 10 && v[10] == ' ' && ClockRest(DropBlanks(v[11..])) == Some([])
  }

  /**
   * The year and month the save path takes from a date value: the layouts are
   * tried in the source's order, and a successful parse is formatted back with
   * "2006" and "01", which reproduces the value's own digits.
   */
  function ResolveDate(v: string): (r: Option<(string, string)>)
    ensures r.Some? <==> ParsesRFC3339(v) || ParsesDate(v) || ParsesDateTime(v)
    ensures r.Some? ==> && |r.value.0| == 4 && AllDigits(r.value.0)
                        && |r.value.1| == 2 && AllDigits(r.value.1)
                        && 1 <= Value(r.value.1) <= 12
                        && r.value.0 == v[..4] && r.value.1 == v[5..7]
  {
    if ParsesRFC3339(v) then Some((v[..4], v[5..7]))
    else if ParsesDate(v) then Some((v[..4], v[5..7]))
    else if ParsesDateTime(v) then Some((v[..4], v[5..7]))
    else None
  }

  /** At most one of the three layouts accepts a value, so their order does not matter. */
  lemma LayoutsExclusive(v: string)
    ensures !(ParsesRFC3339(v) && ParsesDate(v))
    ensures !(ParsesRFC3339(v) && ParsesDateTime(v))
    ensures !(ParsesDate(v) && ParsesDateTime(v))
  {
  }

  /** The value of two digits. */
  lemma ValueOfTwo(s: string)
    requires |s| == 2 && AllDigits(s)
    ensures Value(s) == 10 * DigitValue(s[0]) + DigitValue(s[1])
  {
    var p := s[..1];
    assert p[..0] == [] && p[0] == s[0];
    assert Value(p) == DigitValue(s[0]);
    assert Value(s) == 10 * Value(p) + DigitValue(s[1]);
  }

  /** The value of four digits. */
  lemma ValueOfFour(s: string)
    requires |s| == 4 && AllDigits(s)
    ensures Value(s) == 1000 * DigitValue(s[0]) + 100 * DigitValue(s[1]) + 10 * DigitValue(s[2]) + DigitValue(s[3])
  {
    var p := s[..3];
    assert p[..2] == s[..2] && p[2] == s[2];
    ValueOfTwo(s[..2]);
  }

  /** "2023-05-14" is a date in layout "2006-01-02". */
  lemma SampleDatePrefix(v: string)
    requires |v| >= 10 && v[..10] == "2023-05-14"
    ensures HasDatePrefix(v) && v[..4] == "2023" && v[5..7] == "05"
  {
    var d := v[..10];
    assert v[..4] == d[..4] && v[5..7] == d[5..7] && v[8..10] == d[8..10];
    ValueOfTwo(v[5..7]);
    ValueOfTwo(v[8..10]);
    ValueOfFour(v[..4]);
  }

  /** "10:00:00" followed by `rest` reads as a clock. */
  lemma SampleClock(t: string, rest: string)
    requires t == "10:00:00" + rest && FractionRest(rest) == rest
    ensures ClockRest(t) == Some(rest)
  {
    assert t[..2] == "10";
    ValueOfTwo(t[..2]);
    var a := t[2..];
    assert HourRest(t) == Some(a);
    assert a[1..][..2] == "00";
    ValueOfTwo(a[1..][..2]);
    var b := a[1..][2..];
    assert TwoDigitsBelow(a[1..], 60) == Some(b);
    assert b[1..][..2] == "00";
    ValueOfTwo(b[1..][..2]);
    assert b[1..][2..] == rest;
  }

  /** `2023-05-14` resolves to year 2023, month 05. */
  lemma SampleDate()
    ensures ResolveDate("2023-05-14") == Some(("2023", "05"))
  {
    SampleDatePrefix("2023-05-14");
  }

  /** `2024-03-01` resolves to year 2024, month 03. */
  lemma SampleMarchDate()
    ensures ResolveDate("2024-03-01") == Some(("2024", "03"))
  {
    var v := "2024-03-01";
    assert v[..4] == "2024" && v[5..7] == "03" && v[8..10] == "01";
    ValueOfTwo(v[5..7]);
    ValueOfTwo(v[8..10]);
    ValueOfFour(v[..4]);
    assert HasDatePrefix(v) && ParsesDate(v);
  }

  /** `2023-05-14T10:00:00Z` resolves to year 2023, month 05. */
  lemma SampleRFC3339()
    ensures ResolveDate("2023-05-14T10:00:00Z") == Some(("2023", "05"))
  {
    var v := "2023-05-14T10:00:00Z";
    SampleDatePrefix(v);
    assert v[11..] == "10:00:00" + "Z";
    SampleClock(v[11..], "Z");
    assert ParsesRFC3339(v);
  }

  /** `2023-05-14 10:00:00` resolves to year 2023, month 05. */
  lemma SampleDateTime()
    ensures ResolveDate("2023-05-14 10:00:00") == Some(("2023", "05"))
  {
    var v := "2023-05-14 10:00:00";
    SampleDatePrefix(v);
    assert v[11..] == "10:00:00" + "";
    SampleClock(v[11..], "");
    assert ParsesDateTime(v);
  }

  /** DropBlanks stops exactly at the first character that is not a space. */
  lemma DropBlanksAt(t: string, k: nat)
    requires k < |t| && t[k] != ' '
    requires forall i :: 0 <= i < k ==> t[i] == ' '
    ensures DropBlanks(t) == t[k..]
  {
    var r := DropBlanks(t);
    assert |t| - |r| <= k;
  }

  /** A date, a run of spaces and a clock with nothing after it resolve to the date's year and month. */
  lemma DateTimeAfterBlanks(d: string, blanks: string, clock: string)
    requires HasDatePrefix(d) && |d| == 10
    requires blanks != [] && forall i :: 0 <= i < |blanks| ==> blanks[i] == ' '
    requires clock != [] && clock[0] != ' ' && ClockRest(clock) == Some([])
    ensures ResolveDate(d + blanks + clock) == Some((d[..4], d[5..7]))
  {
    var v := d + blanks + clock;
    assert v[..10] == d;
    assert v[..4] == d[..4] && v[5..7] == d[5..7] && v[8..10] == d[8..10];
    var t := v[11..];
    assert t == blanks[1..] + clock;
    assert t[|blanks| - 1..] == clock;
    DropBlanksAt(t, |blanks| - 1);
    assert ParsesDateTime(v);
  }

  /** With two spaces between date and clock, `2023-05-14  10:00:00` still resolves to year 2023, month 05. */
  lemma SampleDateTimeSpaces()
    ensures ResolveDate("2023-05-14" + "  " + "10:00:00") == Some(("2023", "05"))
  {
    SampleDatePrefix("2023-05-14");
    SampleClock("10:00:00", "");
    DateTimeAfterBlanks("2023-05-14", "  ", "10:00:00");
  }

  /** A calendar instant formatted as "2006-01-02" parses back to its own year and month. */
  lemma DateTextRoundTrip(t: Instant)
    requires t.IsCalendarDate()
    ensures ParsesDate(DateText(t))
    ensures ResolveDate(DateText(t)) == Some((YearText(t), MonthText(t)))
  {
    var v := DateText(t);
    assert v[..4] == Pad(t.year, 4);
    assert v[5..7] == Pad(t.month, 2);
    assert v[8..10] == Pad(t.day, 2);
    PadValue(t.year, 4);
    PadValue(t.month, 2);
    PadValue(t.day, 2);
  }
}
