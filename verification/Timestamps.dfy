/** `parse_rfc3339_utc`, and that it reads what section 5.6 of RFC 3339 prints. */
module Timestamps {
  import opened Common
  import opened Calendar

  const DASH: byte := 0x2D
  const COLON: byte := 0x3A
  const PLUS: byte := 0x2B
  const POINT: byte := 0x2E
  const SPACE: byte := 0x20
  const LETTER_T: byte := 0x54
  const LETTER_Z: byte := 0x5A

  predicate IsDigit(b: byte) {
    0x30 <= b <= 0x39
  }

  predicate AllDigits(s: seq<byte>) {
    forall i :: 0 <= i < |s| ==> IsDigit(s[i])
  }

  function DigitsValue(s: seq<byte>): nat
    requires AllDigits(s)
  {
    if s == [] then 0 else 10 * DigitsValue(s[..|s| - 1]) + (s[|s| - 1] - 0x30)
  }

  /** `str::parse::<u32>` on at most four bytes: digits, with one `+` allowed in front. */
  function ParseNumber(s: seq<byte>): Option<nat>
    requires 2 <= |s| <= 4
  {
    var digits := if s[0] == PLUS then s[1..] else s;
    if AllDigits(digits) then Some(DigitsValue(digits)) else None
  }

  datatype DateTime = DateTime(date: Date, hour: nat, minute: nat, second: nat)

  predicate IsDateTime(t: DateTime) {
    IsDate(t.date) && t.date.year <= 9999 && t.hour <= 23 && t.minute <= 59 && t.second <= 59
  }

  /** `parse_rfc3339_utc`: the seconds since the epoch. */
  function ParseUtc(s: seq<byte>): Option<nat> {
    if |s| < 20 then None
    else if s[4] != DASH || s[7] != DASH then None
    else if s[10] != LETTER_T && s[10] != SPACE then None
    else if s[|s| - 1] != LETTER_Z then None
    else
      var year, month, day := ParseNumber(s[0..4]), ParseNumber(s[5..7]), ParseNumber(s[8..10]);
      var hour, minute, second := ParseNumber(s[11..13]), ParseNumber(s[14..16]), ParseNumber(s[17..19]);
      if year.None? || month.None? || day.None? || hour.None? || minute.None? || second.None? then None
      else if !(1 <= month.value <= 12) || day.value == 0 || day.value > 31
              || hour.value > 23 || minute.value > 59 || second.value > 59 then None
      else
        match DaysFromCivil(year.value, month.value, day.value)
        case None => None
        case Some(days) =>
          var seconds := days * 86_400 + hour.value * 3_600 + minute.value * 60 + second.value;
          if seconds < 0 then None else Some(seconds)
  }

  // ----- printing

  function PrintNumber(n: nat, width: nat): (r: seq<byte>)
    ensures |r| == width && AllDigits(r)
  {
    if width == 0 then [] else PrintNumber(n / 10, width - 1) + [0x30 + n % 10]
  }

  function PrintDate(d: Date): seq<byte> {
    PrintNumber(d.year, 4) + [DASH] + PrintNumber(d.month, 2) + [DASH] + PrintNumber(d.day, 2)
  }

  function PrintTime(t: DateTime): seq<byte> {
    PrintNumber(t.hour, 2) + [COLON] + PrintNumber(t.minute, 2) + [COLON] + PrintNumber(t.second, 2)
  }

  /** `date T time [. fraction] Z`, with `T` or a space between date and time. */
  function Print(t: DateTime, separator: byte, fraction: seq<byte>): seq<byte> {
    PrintDate(t.date) + [separator] + PrintTime(t) + (if fraction == [] then [] else [POINT] + fraction) + [LETTER_Z]
  }

  function Pow10(n: nat): nat {
    if n == 0 then 1 else 10 * Pow10(n - 1)
  }

  lemma {:induction false} PrintedValue(n: nat, width: nat)
    requires n < Pow10(width)
    ensures DigitsValue(PrintNumber(n, width)) == n
  {
    if width == 0 {
    } else {
      PrintedValue(n / 10, width - 1);
      var r := PrintNumber(n, width);
      assert r[..width - 1] == PrintNumber(n / 10, width - 1);
    }
  }

  /** What is read as a number: two to four digits, or a plus sign and at least one digit; nothing else. */
  lemma NumbersAreReadExactly(s: seq<byte>)
    requires 2 <= |s| <= 4
    ensures ParseNumber(s) ==
      if AllDigits(s) then Some(DigitsValue(s))
      else if s[0] == '+' as int && AllDigits(s[1..]) then Some(DigitsValue(s[1..]))
      else None
  {
    if s[0] == PLUS {
      assert !IsDigit(s[0]);
    }
  }

  lemma NumberRoundTrip(n: nat, width: nat)
    requires 2 <= width <= 4 && n < Pow10(width)
    ensures ParseNumber(PrintNumber(n, width)) == Some(n)
  {
    PrintedValue(n, width);
    assert IsDigit(PrintNumber(n, width)[0]);
  }

  /** The printed fields stand in `s`, between the marks the parser looks at. */
  predicate HasFields(s: seq<byte>, t: DateTime) {
    && |s| >= 20 && s[4] == DASH && s[7] == DASH && s[|s| - 1] == LETTER_Z
    && s[0..4] == PrintNumber(t.date.year, 4)
    && s[5..7] == PrintNumber(t.date.month, 2) && s[8..10] == PrintNumber(t.date.day, 2)
    && s[11..13] == PrintNumber(t.hour, 2)
    && s[14..16] == PrintNumber(t.minute, 2) && s[17..19] == PrintNumber(t.second, 2)
  }

  /** The fields of a printed date-time are where the parser looks for them. */
  lemma PrintedFields(t: DateTime, separator: byte, fraction: seq<byte>)
    ensures var s := Print(t, separator, fraction);
      HasFields(s, t) && s[10] == separator
  {
    var date, time := PrintDate(t.date), PrintTime(t);
    var s := Print(t, separator, fraction);
    assert s[0..10] == date;
    assert s[11..19] == time;
    assert s[0..4] == date[0..4] && s[5..7] == date[5..7] && s[8..10] == date[8..10];
    assert s[11..13] == time[0..2] && s[14..16] == time[3..5] && s[17..19] == time[6..8];
    assert s[4] == date[4] && s[7] == date[7];
  }

  /** So are the colons and what follows the seconds, which the parser does not look at. */
  lemma PrintedRest(t: DateTime, separator: byte, fraction: seq<byte>)
    ensures var s := Print(t, separator, fraction);
      && |s| >= 20 && s[13] == COLON && s[16] == COLON
      && s[19..|s| - 1] == if fraction == [] then [] else [POINT] + fraction
  {
    var date, time := PrintDate(t.date), PrintTime(t);
    var s := Print(t, separator, fraction);
    var head, tail := date + [separator] + time, if fraction == [] then [] else [POINT] + fraction;
    assert |head| == 19 && s == head + tail + [LETTER_Z];
    assert s[13] == time[2] && s[16] == time[5];
  }

  /** The marks between the printed fields, as characters. */
  lemma PrintedMarks(t: DateTime, separator: byte, fraction: seq<byte>)
    ensures var s := Print(t, separator, fraction);
      && |s| >= 20 && s[4] == '-' as int && s[7] == '-' as int && s[10] == separator
      && s[13] == ':' as int && s[16] == ':' as int && s[|s| - 1] == 'Z' as int
      && (fraction != [] ==> s[19] == '.' as int)
  {
    PrintedFields(t, separator, fraction);
    PrintedRest(t, separator, fraction);
    var s := Print(t, separator, fraction);
    if fraction != [] {
      assert s[19] == s[19..|s| - 1][0];
    }
  }

  lemma FieldsParse(t: DateTime)
    requires t.date.year <= 9999 && t.date.month <= 99 && t.date.day <= 99
    requires t.hour <= 99 && t.minute <= 99 && t.second <= 99
    ensures ParseNumber(PrintNumber(t.date.year, 4)) == Some(t.date.year)
    ensures ParseNumber(PrintNumber(t.date.month, 2)) == Some(t.date.month)
    ensures ParseNumber(PrintNumber(t.date.day, 2)) == Some(t.date.day)
    ensures ParseNumber(PrintNumber(t.hour, 2)) == Some(t.hour)
    ensures ParseNumber(PrintNumber(t.minute, 2)) == Some(t.minute)
    ensures ParseNumber(PrintNumber(t.second, 2)) == Some(t.second)
  {
    assert Pow10(2) == 100 && Pow10(4) == 100 * Pow10(2);
    NumberRoundTrip(t.date.year, 4);
    NumberRoundTrip(t.date.month, 2);
    NumberRoundTrip(t.date.day, 2);
    NumberRoundTrip(t.hour, 2);
    NumberRoundTrip(t.minute, 2);
    NumberRoundTrip(t.second, 2);
  }

  /** What the parser checks of the fields: every month is taken to have 31 days. */
  predicate IsLooseDateTime(t: DateTime) {
    && 1970 <= t.date.year <= 9999 && 1 <= t.date.month <= 12 && 1 <= t.date.day <= 31
    && t.hour <= 23 && t.minute <= 59 && t.second <= 59
  }

  /** Days past the end of the month count on into the next one. */
  function LooseSeconds(t: DateTime): nat
    requires IsLooseDateTime(t)
  {
    (DayCount(Date(t.date.year, t.date.month, 1)) + (t.date.day - 1)) * 86_400
    + t.hour * 3_600 + t.minute * 60 + t.second
  }

  /** The parser on any text that has the fields of `t` in place. */
  lemma ParsesFields(s: seq<byte>, t: DateTime)
    requires IsLooseDateTime(t)
    requires |s| >= 20 && s[4] == DASH && s[7] == DASH && (s[10] == LETTER_T || s[10] == SPACE)
    requires s[|s| - 1] == LETTER_Z
    requires ParseNumber(s[0..4]) == Some(t.date.year) && ParseNumber(s[5..7]) == Some(t.date.month)
    requires ParseNumber(s[8..10]) == Some(t.date.day) && ParseNumber(s[11..13]) == Some(t.hour)
    requires ParseNumber(s[14..16]) == Some(t.minute) && ParseNumber(s[17..19]) == Some(t.second)
    ensures ParseUtc(s) == Some(LooseSeconds(t))
  {
    var first := Date(t.date.year, t.date.month, 1);
    FormulaCountsDays(first);
    assert CivilFormula(t.date.year, t.date.month, t.date.day)
        == CivilFormula(t.date.year, t.date.month, 1) + (t.date.day - 1);
  }

  /** The fields the parser reads from a text it accepts. */
  function FieldsOf(s: seq<byte>): DateTime
    requires ParseUtc(s).Some?
  {
    DateTime(Date(ParseNumber(s[0..4]).value, ParseNumber(s[5..7]).value, ParseNumber(s[8..10]).value),
             ParseNumber(s[11..13]).value, ParseNumber(s[14..16]).value, ParseNumber(s[17..19]).value)
  }

  lemma ParsesPrintedFields(s: seq<byte>, t: DateTime)
    requires IsLooseDateTime(t) && HasFields(s, t) && (s[10] == LETTER_T || s[10] == SPACE)
    ensures ParseUtc(s) == Some(LooseSeconds(t))
    ensures FieldsOf(s) == t
  {
    FieldsParse(t);
    ParsesFields(s, t);
  }

  /** Also dates that do not exist, such as the 31st of April, are accepted; they count on into the next month. */
  lemma LooseTimestampParses(t: DateTime, separator: byte, fraction: seq<byte>)
    requires IsLooseDateTime(t) && (separator == LETTER_T || separator == SPACE)
    ensures ParseUtc(Print(t, separator, fraction)) == Some(LooseSeconds(t))
  {
    PrintedFields(t, separator, fraction);
    ParsesPrintedFields(Print(t, separator, fraction), t);
  }

  function SecondsSinceEpoch(t: DateTime): nat
    requires IsDateTime(t)
  {
    DayCount(t.date) * 86_400 + t.hour * 3_600 + t.minute * 60 + t.second
  }

  lemma LooseIsExactOnDates(t: DateTime)
    requires IsDateTime(t)
    ensures IsLooseDateTime(t)
    ensures LooseSeconds(t) == SecondsSinceEpoch(t)
  {
  }

  /**
    Every UTC date-time from 1970 to 9999, printed with either separator and any
    fraction, parses to its day count times 86400 plus its seconds of the day.
   */
  lemma PrintedTimestampParses(t: DateTime, separator: byte, fraction: seq<byte>)
    requires IsDateTime(t) && (separator == LETTER_T || separator == SPACE) && AllDigits(fraction)
    ensures ParseUtc(Print(t, separator, fraction)) == Some(SecondsSinceEpoch(t))
  {
    LooseIsExactOnDates(t);
    LooseTimestampParses(t, separator, fraction);
  }

  // ----- what else is accepted

  lemma ParsesAlike(r: seq<byte>, s: seq<byte>)
    requires |r| == |s| >= 20
    requires r[4] == s[4] && r[7] == s[7] && r[10] == s[10] && r[|r| - 1] == s[|s| - 1]
    requires r[0..4] == s[0..4] && r[5..7] == s[5..7] && r[8..10] == s[8..10]
    requires r[11..13] == s[11..13] && r[14..16] == s[14..16] && r[17..19] == s[17..19]
    ensures ParseUtc(r) == ParseUtc(s)
  {
  }

  /** The bytes between the fields of the time are never read. */
  lemma ColonsAreIgnored(s: seq<byte>, a: byte, b: byte)
    requires |s| >= 20
    ensures ParseUtc(s[13 := a][16 := b]) == ParseUtc(s)
  {
    var r := s[13 := a][16 := b];
    assert r[0..4] == s[0..4] && r[5..7] == s[5..7] && r[8..10] == s[8..10];
    assert r[11..13] == s[11..13] && r[14..16] == s[14..16] && r[17..19] == s[17..19];
    ParsesAlike(r, s);
  }

  lemma AcceptedFields(s: seq<byte>)
    requires ParseUtc(s).Some?
    ensures |s| >= 20 && s[4] == '-' as int && s[7] == '-' as int && s[|s| - 1] == 'Z' as int
    ensures s[10] == 'T' as int || s[10] == ' ' as int
    ensures IsLooseDateTime(FieldsOf(s)) && ParseUtc(s) == Some(LooseSeconds(FieldsOf(s)))
  {
    ParsesFields(s, FieldsOf(s));
  }

  /** No field has a sign, the colons are there, the rest is nothing or a fraction, and the day exists. */
  predicate IsStrict(s: seq<byte>)
    requires ParseUtc(s).Some?
  {
    var t, tail := FieldsOf(s), s[19..|s| - 1];
    && AllDigits(s[0..4]) && AllDigits(s[5..7]) && AllDigits(s[8..10])
    && AllDigits(s[11..13]) && AllDigits(s[14..16]) && AllDigits(s[17..19])
    && s[13] == COLON && s[16] == COLON
    && (tail == [] || (|tail| >= 2 && tail[0] == POINT && AllDigits(tail[1..])))
    && t.date.day <= DaysInMonth(t.date.year, t.date.month)
  }

  lemma {:induction false} PrintOfValue(s: seq<byte>)
    requires AllDigits(s)
    ensures PrintNumber(DigitsValue(s), |s|) == s
  {
    if s == [] {
    } else {
      var rest, last := s[..|s| - 1], s[|s| - 1];
      PrintOfValue(rest);
      assert DigitsValue(s) / 10 == DigitsValue(rest) && DigitsValue(s) % 10 == last - 0x30;
      assert s == rest + [last];
    }
  }

  lemma PrintOfParsed(s: seq<byte>)
    requires 2 <= |s| <= 4 && AllDigits(s)
    ensures ParseNumber(s).Some? && PrintNumber(ParseNumber(s).value, |s|) == s
  {
    PrintOfValue(s);
    assert IsDigit(s[0]);
  }

  lemma Assemble(s: seq<byte>, tail: seq<byte>)
    requires |s| >= 20 && tail == s[19..|s| - 1]
    ensures s == s[0..10] + [s[10]] + s[11..19] + tail + [s[|s| - 1]]
    ensures s[0..10] == s[0..4] + [s[4]] + s[5..7] + [s[7]] + s[8..10]
    ensures s[11..19] == s[11..13] + [s[13]] + s[14..16] + [s[16]] + s[17..19]
  {
  }

  lemma DateOfDigits(year: seq<byte>, month: seq<byte>, day: seq<byte>)
    requires |year| == 4 && |month| == |day| == 2 && AllDigits(year) && AllDigits(month) && AllDigits(day)
    ensures PrintDate(Date(ParseNumber(year).value, ParseNumber(month).value, ParseNumber(day).value))
         == year + [DASH] + month + [DASH] + day
  {
    PrintOfParsed(year);
    PrintOfParsed(month);
    PrintOfParsed(day);
  }

  lemma TimeOfDigits(date: Date, hour: seq<byte>, minute: seq<byte>, second: seq<byte>)
    requires |hour| == |minute| == |second| == 2 && AllDigits(hour) && AllDigits(minute) && AllDigits(second)
    ensures PrintTime(DateTime(date, ParseNumber(hour).value, ParseNumber(minute).value, ParseNumber(second).value))
         == hour + [COLON] + minute + [COLON] + second
  {
    PrintOfParsed(hour);
    PrintOfParsed(minute);
    PrintOfParsed(second);
  }

  /** What a strict text has after its seconds, without the point. */
  function FractionOf(s: seq<byte>): seq<byte>
    requires |s| >= 20
  {
    var tail := s[19..|s| - 1];
    if tail == [] then [] else tail[1..]
  }

  lemma StrictTail(s: seq<byte>)
    requires ParseUtc(s).Some? && IsStrict(s)
    ensures AllDigits(FractionOf(s))
    ensures s[19..|s| - 1] == if FractionOf(s) == [] then [] else [POINT] + FractionOf(s)
  {
    var tail := s[19..|s| - 1];
    assert tail != [] ==> tail == [tail[0]] + tail[1..];
  }

  lemma StrictParts(s: seq<byte>)
    requires ParseUtc(s).Some? && IsStrict(s)
    ensures IsDateTime(FieldsOf(s))
    ensures s[0..10] == PrintDate(FieldsOf(s).date) && s[11..19] == PrintTime(FieldsOf(s)) && s[|s| - 1] == LETTER_Z
  {
    AcceptedFields(s);
    DateOfDigits(s[0..4], s[5..7], s[8..10]);
    TimeOfDigits(FieldsOf(s).date, s[11..13], s[14..16], s[17..19]);
    Assemble(s, s[19..|s| - 1]);
  }

  lemma PrintOfParts(s: seq<byte>, t: DateTime, fraction: seq<byte>)
    requires |s| >= 20 && s[0..10] == PrintDate(t.date) && s[11..19] == PrintTime(t) && s[|s| - 1] == LETTER_Z
    requires s[19..|s| - 1] == if fraction == [] then [] else [POINT] + fraction
    ensures s == Print(t, s[10], fraction)
  {
    Assemble(s, s[19..|s| - 1]);
  }

  /** A strict text is the printed form of its own fields. */
  lemma StrictIsPrinted(s: seq<byte>)
    requires ParseUtc(s).Some? && IsStrict(s)
    ensures IsDateTime(FieldsOf(s)) && AllDigits(FractionOf(s)) && s == Print(FieldsOf(s), s[10], FractionOf(s))
  {
    StrictParts(s);
    StrictTail(s);
    PrintOfParts(s, FieldsOf(s), FractionOf(s));
  }

  lemma StrictByFields(s: seq<byte>, t: DateTime, fraction: seq<byte>)
    requires IsDateTime(t) && AllDigits(fraction) && HasFields(s, t) && (s[10] == LETTER_T || s[10] == SPACE)
    requires s[13] == COLON && s[16] == COLON
    requires s[19..|s| - 1] == if fraction == [] then [] else [POINT] + fraction
    ensures ParseUtc(s).Some? && IsStrict(s) && FieldsOf(s) == t
  {
    LooseIsExactOnDates(t);
    ParsesPrintedFields(s, t);
  }

  lemma PrintedIsStrict(t: DateTime, separator: byte, fraction: seq<byte>)
    requires IsDateTime(t) && AllDigits(fraction) && (separator == LETTER_T || separator == SPACE)
    ensures var s := Print(t, separator, fraction); ParseUtc(s).Some? && IsStrict(s) && FieldsOf(s) == t
  {
    PrintedFields(t, separator, fraction);
    PrintedRest(t, separator, fraction);
    StrictByFields(Print(t, separator, fraction), t, fraction);
  }

  /**
    An accepted text has the form of section 5.6 of RFC 3339 for an existing date
    exactly when it is strict.
   */
  lemma AcceptedIsPrintedExactly(s: seq<byte>)
    requires ParseUtc(s).Some?
    ensures (exists t, fraction :: IsDateTime(t) && AllDigits(fraction) && s == Print(t, s[10], fraction)) <==>
      IsStrict(s)
  {
    if IsStrict(s) {
      StrictIsPrinted(s);
    }
    if t, fraction :| IsDateTime(t) && AllDigits(fraction) && s == Print(t, s[10], fraction) {
      PrintedIsStrict(t, s[10], fraction);
    }
  }
}
