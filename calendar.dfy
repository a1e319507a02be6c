/** Calendar arithmetic behind the index-name suffix: tomorrow's date in the
    proleptic Gregorian calendar of Go's `time` package, rendered with the
    layout "20060102" (four-digit year, two-digit month, two-digit day). */
module Calendar {

  datatype Date = Date(year: int, month: int, day: int)

  /** Gregorian leap years. A remainder of zero means the same thing whether
      `%` truncates (Go) or is Euclidean (Dafny), so negative years agree too. */
  predicate IsLeapYear(y: int)
  {
    y % 4 == 0 && (y % 100 != 0 || y % 400 == 0)
  }

  function DaysInMonth(y: int, m: int): (n: int)
    requires 1 <= m <= 12
    ensures 28 <= n <= 31
    ensures n == 29 <==> m == 2 && IsLeapYear(y)
  {
    if m == 2 then (if IsLeapYear(y) then 29 else 28)
    else if m == 4 || m == 6 || m == 9 || m == 11 then 30
    else 31
  }

  /** A date that exists in the calendar, as every `time.Time` denotes one. */
  predicate Valid(d: Date)
  {
    1 <= d.month <= 12 && 1 <= d.day <= DaysInMonth(d.year, d.month)
  }

  /** Chronological order on dates. */
  predicate Before(a: Date, b: Date)
  {
    a.year < b.year ||
    (a.year == b.year && (a.month < b.month || (a.month == b.month && a.day < b.day)))
  }

  /** currentDate.AddDate(0, 0, 1): the following day, rolling over into the
      next month and the next year. */
  function NextDay(d: Date): (r: Date)
    requires Valid(d)
    ensures Valid(r) && Before(d, r)
  {
    if d.day < DaysInMonth(d.year, d.month) then Date(d.year, d.month, d.day + 1)
    else if d.month < 12 then Date(d.year, d.month + 1, 1)
    else Date(d.year + 1, 1, 1)
  }

  /** No valid date lies strictly between a date and its successor, so
      NextDay is exactly "plus one day". */
  lemma NextDayIsSuccessor(d: Date, e: Date)
    requires Valid(d) && Valid(e) && Before(d, e)
    ensures !Before(e, NextDay(d))
  {
  }

  /** The rollover cases: month end, year end, and February in leap and
      common years (including the century rules). */
  lemma NextDayRollover()
    ensures NextDay(Date(2024, 6, 14)) == Date(2024, 6, 15)
    ensures NextDay(Date(2024, 4, 30)) == Date(2024, 5, 1)
    ensures NextDay(Date(2024, 12, 31)) == Date(2025, 1, 1)
    ensures NextDay(Date(2024, 2, 28)) == Date(2024, 2, 29)
    ensures NextDay(Date(2023, 2, 28)) == Date(2023, 3, 1)
    ensures NextDay(Date(1900, 2, 28)) == Date(1900, 3, 1)
    ensures NextDay(Date(2000, 2, 28)) == Date(2000, 2, 29)
  {
  }

  // ---------------------------------------------------------------------
  // Decimal rendering, as Go's time formatting writes integer fields

  function Pow10(w: nat): (p: nat)
    ensures p >= 1
  {
    if w == 0 then 1 else 10 * Pow10(w - 1)
  }

  function Digit(n: int): char
    requires 0 <= n <= 9
  {
    (('0' as int) + n) as char
  }

  predicate IsDigit(c: char)
  {
    '0' <= c <= '9'
  }

  predicate AllDigits(s: string)
  {
    forall k :: 0 <= k < |s| ==> IsDigit(s[k])
  }

  /** The number a string of decimal digits denotes, most significant first. */
  function Value(s: string): nat
  {
    if s == [] then 0
    else
      var c := s[|s| - 1];
      Value(s[..|s| - 1]) * 10 + (if IsDigit(c) then (c as int) - ('0' as int) else 0)
  }

  /** The shortest decimal numeral for `n` ("0" for zero). */
  function Decimal(n: nat): string
  {
    if n < 10 then [Digit(n)] else Decimal(n / 10) + [Digit(n % 10)]
  }

  function Zeros(k: nat): string
  {
    if k == 0 then "" else Zeros(k - 1) + "0"
  }

  /** Go's appendInt(b, x, width): a minus sign for negative values, then the
      magnitude left-padded with zeros to `width` digits (never truncated). */
  function PaddedInt(x: int, width: nat): string
  {
    var digits := Decimal(if x < 0 then -x else x);
    (if x < 0 then "-" else "") + Zeros(if |digits| < width then width - |digits| else 0) + digits
  }

  /** indexDate.Format("20060102"). */
  function FormatDate(d: Date): string
  {
    PaddedInt(d.year, 4) + PaddedInt(d.month, 2) + PaddedInt(d.day, 2)
  }

  lemma {:induction false} DecimalFacts(n: nat)
    ensures 1 <= |Decimal(n)| && AllDigits(Decimal(n)) && Value(Decimal(n)) == n
    ensures forall w: nat :: n < Pow10(w) && w >= 1 ==> |Decimal(n)| <= w
  {
    if n >= 10 {
      DecimalFacts(n / 10);
      var s := Decimal(n);
      assert s[..|s| - 1] == Decimal(n / 10);
      forall w: nat | n < Pow10(w) && w >= 1 ensures |Decimal(n)| <= w {
        assert w >= 2;
        assert n / 10 < Pow10(w - 1);
      }
    }
  }

  lemma {:induction false} ValueZerosPrefix(k: nat, s: string)
    ensures Value(Zeros(k) + s) == Value(s)
    decreases |s|, k
  {
    if s == [] {
      assert Zeros(k) + s == Zeros(k);
      if k > 0 {
        ValueZerosPrefix(k - 1, "");
        assert Zeros(k - 1) + "" == Zeros(k - 1);
        assert Zeros(k)[..|Zeros(k)| - 1] == Zeros(k - 1);
      }
    } else {
      var t := Zeros(k) + s;
      ValueZerosPrefix(k, s[..|s| - 1]);
      assert t[..|t| - 1] == Zeros(k) + s[..|s| - 1];
    }
  }

  lemma {:induction false} ZerosFacts(k: nat)
    ensures |Zeros(k)| == k && AllDigits(Zeros(k))
  {
    if k > 0 {
      ZerosFacts(k - 1);
    }
  }

  /** A non-negative field below 10^width is rendered as exactly `width`
      digits that denote it. */
  lemma FixedWidth(x: int, width: nat)
    requires width >= 1 && 0 <= x < Pow10(width)
    ensures |PaddedInt(x, width)| == width
    ensures AllDigits(PaddedInt(x, width))
    ensures Value(PaddedInt(x, width)) == x
  {
    var digits := Decimal(x);
    DecimalFacts(x);
    var k := width - |digits|;
    ZerosFacts(k);
    ValueZerosPrefix(k, digits);
    assert PaddedInt(x, width) == Zeros(k) + digits;
  }

  /** The suffix of every index name: for a year written with four digits the
      rendering is eight digits, year, month and day in that order. */
  lemma FormatDateLayout(d: Date)
    requires Valid(d) && 0 <= d.year <= 9999
    ensures var s := FormatDate(d);
      |s| == 8 && AllDigits(s) &&
      Value(s[..4]) == d.year && Value(s[4..6]) == d.month && Value(s[6..]) == d.day
  {
    assert Pow10(4) == 10000 && Pow10(2) == 100;
    FixedWidth(d.year, 4);
    FixedWidth(d.month, 2);
    FixedWidth(d.day, 2);
    var s := FormatDate(d);
    assert s[..4] == PaddedInt(d.year, 4);
    assert s[4..6] == PaddedInt(d.month, 2);
    assert s[6..] == PaddedInt(d.day, 2);
  }

  /** Reads an eight-digit YYYYMMDD string back into a date. */
  function ParseDate(s: string): (r: Option<Date>)
    ensures r.Some? <==> |s| == 8 && AllDigits(s)
  {
    if |s| == 8 && AllDigits(s) then Some(Date(Value(s[..4]), Value(s[4..6]), Value(s[6..])))
    else None
  }

  datatype Option<+T> = None | Some(value: T)

  /** Round trip: the rendering of a date with a four-digit year can be read
      back, so distinct dates give distinct index names. */
  lemma ParseFormatDate(d: Date)
    requires Valid(d) && 0 <= d.year <= 9999
    ensures ParseDate(FormatDate(d)) == Some(d)
  {
    FormatDateLayout(d);
  }

  /** Two concrete renderings, one of them with a zero-padded year. */
  lemma FormatExample()
    ensures FormatDate(Date(2024, 6, 15)) == "20240615"
    ensures FormatDate(Date(987, 1, 2)) == "09870102"
  {
  }
}
