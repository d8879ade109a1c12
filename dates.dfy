/** Calendar days and the `yyyy-MM-dd` wire format. A `DateTimeOffset` of the
    source is modelled by its calendar day; offsets and times of day are not. */
module Dates {
  import opened Wrappers

  datatype Date = Date(year: int, month: int, day: int)

  /** Gregorian leap years, as `DateTime.IsLeapYear`. */
  predicate IsLeapYear(y: int) {
    y % 4 == 0 && (y % 100 != 0 || y % 400 == 0)
  }

  function DaysInMonth(y: int, m: int): (n: int)
    requires 1 <= m <= 12
    ensures 28 <= n <= 31
    ensures n == 29 <==> m == 2 && IsLeapYear(y)
  {
    if m == 2 then (if IsLeapYear(y) then 29 else 28)
    else if m == 4 || m == 6 || m == 9 || m == 11 then 30
    else 31
  }

  /** The days a `DateTime` can hold: 0001-01-01 to 9999-12-31. */
  predicate IsValid(d: Date) {
    && 1 <= d.year <= 9999
    && 1 <= d.month <= 12
    && 1 <= d.day <= DaysInMonth(d.year, d.month)
  }

  type CalendarDate = d: Date | IsValid(d) witness Date(1, 1, 1)

  /** `a < b` on calendar days. */
  predicate Before(a: Date, b: Date) {
    || a.year < b.year
    || (a.year == b.year && a.month < b.month)
    || (a.year == b.year && a.month == b.month && a.day < b.day)
  }

  predicate IsDigit(c: char) {
    '0' <= c <= '9'
  }

  function DigitChar(k: int): (c: char)
    requires 0 <= k <= 9
    ensures IsDigit(c)
  {
    (48 + k) as char
  }

  function DigitValue(c: char): (k: int)
    requires IsDigit(c)
    ensures 0 <= k <= 9 && DigitChar(k) == c
  {
    c as int - 48
  }

  /** A number below 100 as exactly two digits, zero-padded. */
  function Pad2(n: int): (s: string)
    requires 0 <= n < 100
  {
    [DigitChar(n / 10), DigitChar(n % 10)]
  }

  /** A number below 10000 as exactly four digits, zero-padded. */
  function Pad4(n: int): (s: string)
    requires 0 <= n < 10000
  {
    [DigitChar(n / 1000), DigitChar(n / 100 % 10), DigitChar(n / 10 % 10), DigitChar(n % 10)]
  }

  /** The custom format string the source uses for every date on the wire. */
  const IsoFormat: string := "yyyy-MM-dd"

  /** `ToString("yyyy-MM-dd")` of a day. */
  function Format(d: CalendarDate): (s: string)
    ensures |s| == 10 && s[4] == '-' && s[7] == '-'
    ensures forall i :: 0 <= i < 10 && i != 4 && i != 7 ==> IsDigit(s[i])
  {
    Pad4(d.year) + "-" + Pad2(d.month) + "-" + Pad2(d.day)
  }

  /** The shape of the format: ten characters, digits except two dashes. */
  predicate HasIsoShape(s: string) {
    && |s| == 10 && s[4] == '-' && s[7] == '-'
    && forall i :: 0 <= i < 10 && i != 4 && i != 7 ==> IsDigit(s[i])
  }

  function Value2(a: char, b: char): int
    requires IsDigit(a) && IsDigit(b)
  {
    10 * DigitValue(a) + DigitValue(b)
  }

  function Value4(a: char, b: char, c: char, d: char): int
    requires IsDigit(a) && IsDigit(b) && IsDigit(c) && IsDigit(d)
  {
    1000 * DigitValue(a) + 100 * DigitValue(b) + 10 * DigitValue(c) + DigitValue(d)
  }

  /** `DateTime.TryParseExact(s, "yyyy-MM-dd", null, DateTimeStyles.None, out _)`:
      exactly four year digits, two month digits and two day digits (ASCII),
      literal dashes, no surrounding whitespace, and a day that exists. */
  function Parse(s: string): (r: Option<CalendarDate>)
    ensures r.Some? ==> HasIsoShape(s) && Format(r.value) == s
  {
    if HasIsoShape(s) then
      var d := Date(Value4(s[0], s[1], s[2], s[3]), Value2(s[5], s[6]), Value2(s[8], s[9]));
      if IsValid(d) then
        ParsedFormatsBack(s);
        Some(d)
      else None
    else None
  }

  lemma Pad2Digits(a: char, b: char)
    requires IsDigit(a) && IsDigit(b)
    ensures 0 <= Value2(a, b) < 100 && Pad2(Value2(a, b)) == [a, b]
  {
    var x, y := DigitValue(a), DigitValue(b);
    assert (10 * x + y) / 10 == x && (10 * x + y) % 10 == y;
  }

  lemma Pad4Digits(a: char, b: char, c: char, d: char)
    requires IsDigit(a) && IsDigit(b) && IsDigit(c) && IsDigit(d)
    ensures 0 <= Value4(a, b, c, d) < 10000 && Pad4(Value4(a, b, c, d)) == [a, b, c, d]
  {
    Digits4(DigitValue(a), DigitValue(b), DigitValue(c), DigitValue(d));
  }

  lemma DivMod10(n: int, q: int, r: int)
    requires 0 <= r < 10 && n == 10 * q + r
    ensures n / 10 == q && n % 10 == r
  {
  }

  /** Four decimal digits and the number they spell agree. */
  lemma Digits4(w: int, x: int, y: int, z: int)
    requires 0 <= w <= 9 && 0 <= x <= 9 && 0 <= y <= 9 && 0 <= z <= 9
    ensures var n := 1000 * w + 100 * x + 10 * y + z;
      n / 1000 == w && n / 100 % 10 == x && n / 10 % 10 == y && n % 10 == z
  {
    var n := 1000 * w + 100 * x + 10 * y + z;
    DivMod10(n, 100 * w + 10 * x + y, z);
    DivMod10(100 * w + 10 * x + y, 10 * w + x, y);
    DivMod10(10 * w + x, w, x);
    assert n / 100 == (n / 10) / 10;
    assert n / 1000 == ((n / 10) / 10) / 10;
  }

  lemma ParsedFormatsBack(s: string)
    requires HasIsoShape(s)
    requires IsValid(Date(Value4(s[0], s[1], s[2], s[3]), Value2(s[5], s[6]), Value2(s[8], s[9])))
    ensures Format(Date(Value4(s[0], s[1], s[2], s[3]), Value2(s[5], s[6]), Value2(s[8], s[9]))) == s
  {
    Pad4Digits(s[0], s[1], s[2], s[3]);
    Pad2Digits(s[5], s[6]);
    Pad2Digits(s[8], s[9]);
    assert s == s[0..4] + "-" + s[5..7] + "-" + s[8..10];
  }

  lemma Pad2Value(n: int)
    requires 0 <= n < 100
    ensures Value2(Pad2(n)[0], Pad2(n)[1]) == n
  {
    DivMod10(n, n / 10, n % 10);
  }

  lemma DivMod100(n: int, q: int, r: int)
    requires 0 <= r < 100 && n == 100 * q + r
    ensures n / 100 == q
  {
  }

  lemma DivMod1000(n: int, q: int, r: int)
    requires 0 <= r < 1000 && n == 1000 * q + r
    ensures n / 1000 == q
  {
  }

  lemma Pad4Value(n: int)
    requires 0 <= n < 10000
    ensures Value4(Pad4(n)[0], Pad4(n)[1], Pad4(n)[2], Pad4(n)[3]) == n
  {
    var q1, r1 := n / 10, n % 10;
    var q2, r2 := q1 / 10, q1 % 10;
    var q3, r3 := q2 / 10, q2 % 10;
    DivMod100(n, q2, 10 * r2 + r1);
    DivMod1000(n, q3, 100 * r3 + 10 * r2 + r1);
  }

  /** Every formatted day parses back to itself. */
  lemma {:induction false} FormatThenParse(d: CalendarDate)
    ensures Parse(Format(d)) == Some(d)
  {
    var s := Format(d);
    assert s[0..4] == Pad4(d.year) && s[5..7] == Pad2(d.month) && s[8..10] == Pad2(d.day);
    Pad4Value(d.year);
    Pad2Value(d.month);
    Pad2Value(d.day);
    assert Value4(s[0], s[1], s[2], s[3]) == d.year;
    assert Value2(s[5], s[6]) == d.month;
    assert Value2(s[8], s[9]) == d.day;
  }

  /** A string is accepted exactly when it is the formatting of some day, and
      then it denotes that day. */
  lemma ParseAcceptsExactlyFormatted(s: string, d: CalendarDate)
    ensures Parse(s) == Some(d) <==> s == Format(d)
  {
    if s == Format(d) {
      FormatThenParse(d);
    }
  }
}
