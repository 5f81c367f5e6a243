/** The posting date of a message (wordle_stats.py, lines 53-60): the `DD.MM.YYYY` prefix of the
    `title` attribute, and the validity check `datetime(year, month, day)` makes. */
module Dates {
  import opened Wrappers
  import opened Lexical

  datatype Date = Date(year: int, month: int, day: int)

  /** The three groups of `(\d{2})\.(\d{2})\.(\d{4})`, each passed through `int()`. */
  datatype DateFields = DateFields(day: nat, month: nat, year: nat)

  /** `re.match(r"(\d{2})\.(\d{2})\.(\d{4})", title)`: anchored at the start, any text may follow. */
  function DatePrefix(title: string): Option<DateFields>
  {
    if |title| < 10 || !AllDigits(title[0..2]) || title[2] != '.' || !AllDigits(title[3..5])
       || title[5] != '.' || !AllDigits(title[6..10])
    then None
    else Some(DateFields(DecimalValue(title[0..2]), DecimalValue(title[3..5]), DecimalValue(title[6..10])))
  }

  function Pow10(w: nat): (p: nat)
    ensures p >= 1
  {
    if w == 0 then 1 else 10 * Pow10(w - 1)
  }

  /** n written with exactly w digits, zero-padded on the left, as the exporter writes dates. */
  function Padded(n: nat, w: nat): (s: string)
    ensures |s| == w && AllDigits(s)
  {
    if w == 0 then [] else Padded(n / 10, w - 1) + [DigitChar(n % 10)]
  }

  lemma {:induction false} PaddedRoundTrip(n: nat, w: nat)
    requires n < Pow10(w)
    ensures DecimalValue(Padded(n, w)) == n
  {
    if w > 0 {
      PaddedRoundTrip(n / 10, w - 1);
      DecimalAppend(Padded(n / 10, w - 1), DigitChar(n % 10));
    }
  }

  /** The title the exporter writes for a date, followed by any time and zone text. */
  function Title(f: DateFields, rest: string): string
  {
    Padded(f.day, 2) + "." + Padded(f.month, 2) + "." + Padded(f.year, 4) + rest
  }

  /** Reading the prefix of a title written from fields that fit their widths gives those fields back. */
  lemma DatePrefixRoundTrip(f: DateFields, rest: string)
    requires f.day < 100 && f.month < 100 && f.year < 10000
    ensures DatePrefix(Title(f, rest)) == Some(f)
  {
    var t := Title(f, rest);
    assert t[0..2] == Padded(f.day, 2);
    assert t[3..5] == Padded(f.month, 2);
    assert t[6..10] == Padded(f.year, 4);
    PaddedRoundTrip(f.day, 2);
    PaddedRoundTrip(f.month, 2);
    PaddedRoundTrip(f.year, 4);
  }

  /** A title that does not start with two digits, a dot, two digits, a dot and four digits has no date. */
  lemma DatePrefixNeedsShape(title: string)
    requires DatePrefix(title).Some?
    ensures |title| >= 10 && title[2] == '.' && title[5] == '.'
    ensures forall i :: i in {0, 1, 3, 4, 6, 7, 8, 9} ==> IsDigit(title[i])
  {
    assert title[0..2][0] == title[0] && title[0..2][1] == title[1];
    assert title[3..5][0] == title[3] && title[3..5][1] == title[4];
    assert title[6..10][0] == title[6] && title[6..10][1] == title[7];
    assert title[6..10][2] == title[8] && title[6..10][3] == title[9];
  }

  predicate IsLeapYear(y: int) {
    y % 4 == 0 && (y % 100 != 0 || y % 400 == 0)
  }

  function DaysInMonth(y: int, m: int): (n: nat)
    requires 1 <= m <= 12
    ensures 28 <= n <= 31
    ensures n == 31 <==> m in {1, 3, 5, 7, 8, 10, 12}
    ensures n == 29 <==> m == 2 && IsLeapYear(y)
    ensures n == 30 <==> m in {4, 6, 9, 11}
    ensures n == 28 <==> m == 2 && !IsLeapYear(y)
  {
    if m == 2 then (if IsLeapYear(y) then 29 else 28)
    else if m in {4, 6, 9, 11} then 30
    else 31
  }

  /** What `datetime(year, month, day)` accepts: years 1 to 9999, months 1 to 12, days within the month. */
  predicate IsValidDate(y: int, m: int, d: int) {
    1 <= y <= 9999 && 1 <= m <= 12 && 1 <= d <= DaysInMonth(y, m)
  }

  /** `datetime(year, month, day)`, or None where the constructor raises. */
  function MakeDate(f: DateFields): (o: Option<Date>)
    ensures o.Some? <==> IsValidDate(f.year, f.month, f.day)
    ensures o.Some? ==> o.value.year == f.year && o.value.month == f.month && o.value.day == f.day
  {
    if IsValidDate(f.year, f.month, f.day) then Some(Date(f.year, f.month, f.day)) else None
  }

  function DaysInYear(y: int): nat
  {
    DaysInMonth(y, 1) + DaysInMonth(y, 2) + DaysInMonth(y, 3) + DaysInMonth(y, 4)
    + DaysInMonth(y, 5) + DaysInMonth(y, 6) + DaysInMonth(y, 7) + DaysInMonth(y, 8)
    + DaysInMonth(y, 9) + DaysInMonth(y, 10) + DaysInMonth(y, 11) + DaysInMonth(y, 12)
  }

  /** The month lengths add up to the Gregorian year length. */
  lemma YearLength(y: int)
    ensures DaysInYear(y) == if IsLeapYear(y) then 366 else 365
  {
  }

  /** "26.08.2023 08:38:51 UTC+01:00", the documented title format, reads as 26 August 2023. */
  lemma ExampleTitle()
    ensures DatePrefix(Title(DateFields(26, 8, 2023), " 08:38:51 UTC+01:00")) == Some(DateFields(26, 8, 2023))
    ensures MakeDate(DateFields(26, 8, 2023)) == Some(Date(2023, 8, 26))
  {
    DatePrefixRoundTrip(DateFields(26, 8, 2023), " 08:38:51 UTC+01:00");
  }

  /** "31.02.2023 ..." has the shape of a date, so the constructor is reached, and it raises. */
  lemma ImpossibleTitle()
    ensures DatePrefix(Title(DateFields(31, 2, 2023), " 10:00:00 UTC+01:00")) == Some(DateFields(31, 2, 2023))
    ensures MakeDate(DateFields(31, 2, 2023)).None?
  {
    DatePrefixRoundTrip(DateFields(31, 2, 2023), " 10:00:00 UTC+01:00");
  }

  /** Well-formed prefixes that name no real day: the constructor raises for them. */
  lemma ImpossibleDates()
    ensures MakeDate(DateFields(29, 2, 2023)).None? && MakeDate(DateFields(29, 2, 2024)).Some?
    ensures MakeDate(DateFields(29, 2, 1900)).None? && MakeDate(DateFields(29, 2, 2000)).Some?
    ensures MakeDate(DateFields(0, 1, 2023)).None? && MakeDate(DateFields(1, 13, 2023)).None?
    ensures MakeDate(DateFields(1, 1, 0)).None?
  {
  }
}
