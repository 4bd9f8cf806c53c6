/**
 * The deadline check of project creation: `datetime.strptime(text, "%d/%m/%Y")`
 * followed by `strftime("%d/%m/%Y")`. The parser here accepts the canonical
 * form only: two-digit day, two-digit month, four-digit year, separated by '/',
 * naming a real day of the proleptic Gregorian calendar in years 1 to 9999
 * (the range of Python's `datetime`).
 */
module Dates {
  import opened Wrappers

  datatype Date = Date(day: nat, month: nat, year: nat)

  predicate IsLeapYear(year: nat) {
    year % 4 == 0 && (year % 100 != 0 || year % 400 == 0)
  }

  function DaysInMonth(month: nat, year: nat): nat
    requires 1 <= month <= 12
  {
    if month == 2 then (if IsLeapYear(year) then 29 else 28)
    else if month in {4, 6, 9, 11} then 30
    else 31
  }

  /** A day that exists in the calendar, in a year `datetime` can represent. */
  predicate ValidDate(d: Date) {
    && 1 <= d.year <= 9999
    && 1 <= d.month <= 12
    && 1 <= d.day <= DaysInMonth(d.month, d.year)
  }

  // ---------------------------------------------------------------------------
  // Decimal digits

  predicate IsDigit(c: char) {
    '0' <= c <= '9'
  }

  predicate AllDigits(s: string) {
    forall i :: 0 <= i < |s| ==> IsDigit(s[i])
  }

  function Pow10(n: nat): (p: nat)
    ensures p >= 1
  {
    if n == 0 then 1 else 10 * Pow10(n - 1)
  }

  /** The value of a decimal numeral, most significant digit first. */
  function Value(s: string): (v: nat)
    requires AllDigits(s)
    ensures v < Pow10(|s|)
  {
    if s == [] then 0
    else Value(s[..|s| - 1]) * 10 + (s[|s| - 1] as int - '0' as int)
  }

  /** The last `width` decimal digits of `n`, zero-padded on the left. */
  function Pad(n: nat, width: nat): (s: string)
    ensures |s| == width && AllDigits(s)
  {
    if width == 0 then []
    else Pad(n / 10, width - 1) + [('0' as int + n % 10) as char]
  }

  /** Padding a number that fits in `width` digits and reading it back gives the number. */
  lemma {:induction false} ValuePad(n: nat, width: nat)
    requires n < Pow10(width)
    ensures Value(Pad(n, width)) == n
  {
    if width > 0 {
      ValuePad(n / 10, width - 1);
      var s := Pad(n, width);
      assert s[..|s| - 1] == Pad(n / 10, width - 1);
    }
  }

  lemma DivModTen(a: nat, d: nat)
    requires d < 10
    ensures (a * 10 + d) / 10 == a && (a * 10 + d) % 10 == d
  {
  }

  /** Reading a numeral and padding it back to its own width gives the numeral. */
  lemma {:induction false} PadValue(s: string)
    requires AllDigits(s)
    ensures Pad(Value(s), |s|) == s
  {
    if s != [] {
      var init, last := s[..|s| - 1], s[|s| - 1];
      var d := last as int - '0' as int;
      assert Value(s) == Value(init) * 10 + d;
      DivModTen(Value(init), d);
      PadValue(init);
      calc {
        Pad(Value(s), |s|);
        Pad(Value(init), |init|) + [('0' as int + d) as char];
        init + [last];
        s;
      }
    }
  }

  // ---------------------------------------------------------------------------
  // Parsing and formatting

  /** `strptime(text, "%d/%m/%Y")`: `None` where Python raises `ValueError`.
      What it accepts is a real day of the calendar. */
  function ParseDate(text: string): (date: Option<Date>)
    ensures date.Some? ==> ValidDate(date.value)
  {
    if |text| == 10 && text[2] == '/' && text[5] == '/'
       && AllDigits(text[..2]) && AllDigits(text[3..5]) && AllDigits(text[6..])
    then
      var d := Date(Value(text[..2]), Value(text[3..5]), Value(text[6..]));
      if ValidDate(d) then Some(d) else None
    else None
  }

  /** `strftime("%d/%m/%Y")`: two digits, '/', two digits, '/', four digits. */
  function FormatDate(d: Date): (text: string)
    ensures |text| == 10 && text[2] == '/' && text[5] == '/'
    ensures AllDigits(text[..2]) && AllDigits(text[3..5]) && AllDigits(text[6..])
  {
    var text := Pad(d.day, 2) + "/" + Pad(d.month, 2) + "/" + Pad(d.year, 4);
    assert text[..2] == Pad(d.day, 2);
    assert text[3..5] == Pad(d.month, 2);
    assert text[6..] == Pad(d.year, 4);
    text
  }

  /** A formatted date with fields of at most two, two and four digits is read back
      field for field, and accepted exactly when it is a real day. */
  lemma FormatThenParseAny(d: Date)
    requires d.day < 100 && d.month < 100 && d.year < 10000
    ensures ParseDate(FormatDate(d)) == if ValidDate(d) then Some(d) else None
  {
    var text := FormatDate(d);
    assert text[..2] == Pad(d.day, 2);
    assert text[3..5] == Pad(d.month, 2);
    assert text[6..] == Pad(d.year, 4);
    ValuePad(d.day, 2);
    ValuePad(d.month, 2);
    ValuePad(d.year, 4);
  }

  /** Every valid date is accepted back from its own formatting. */
  lemma FormatThenParse(d: Date)
    requires ValidDate(d)
    ensures ParseDate(FormatDate(d)) == Some(d)
  {
    FormatThenParseAny(d);
  }

  /** Formatting what the parser accepts gives the text back: the accepted text
      is already in the form `strftime` writes. */
  lemma ParseThenFormat(text: string)
    requires ParseDate(text).Some?
    ensures FormatDate(ParseDate(text).value) == text
  {
    PadValue(text[..2]);
    PadValue(text[3..5]);
    PadValue(text[6..]);
    assert text == text[..2] + "/" + text[3..5] + "/" + text[6..];
  }

  /** The deadline as the registry stores it: parsed, then formatted again. */
  function Deadline(text: string): (stored: Option<string>)
    ensures stored.Some? <==> ParseDate(text).Some?
    ensures stored.Some? ==> stored.value == text && ParseDate(stored.value).Some?
  {
    match ParseDate(text)
    case None => None
    case Some(d) =>
      ParseThenFormat(text);
      Some(FormatDate(d))
  }

  /** 31 February does not exist, so that deadline is refused. */
  lemma NoThirtyFirstOfFebruary()
    ensures ParseDate("31/02/2025") == None
  {
    assert FormatDate(Date(31, 2, 2025)) == "31/02/2025";
    FormatThenParseAny(Date(31, 2, 2025));
  }

  /** 29 February exists in a leap year ... */
  lemma LeapDayInLeapYear()
    ensures ParseDate("29/02/2024") == Some(Date(29, 2, 2024))
  {
    assert Pad(2024, 4) == "2024";
    assert FormatDate(Date(29, 2, 2024)) == "29/02/2024";
    FormatThenParse(Date(29, 2, 2024));
  }

  /** ... and only there. */
  lemma NoLeapDayInCommonYear()
    ensures ParseDate("29/02/2023") == None
  {
    assert Pad(2023, 4) == "2023";
    assert FormatDate(Date(29, 2, 2023)) == "29/02/2023";
    FormatThenParseAny(Date(29, 2, 2023));
  }
}
