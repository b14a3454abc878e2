/** Calendar dates as Python's `datetime.date` has them: the proleptic
    Gregorian calendar, years 1 to 9999, comparison field by field, and day
    differences through the day ordinal (`date.toordinal`). */
module Dates {
  import opened Common

  const MIN_YEAR: int := 1
  const MAX_YEAR: int := 9999

  datatype Date = Date(year: int, month: int, day: int)

  predicate IsLeap(y: int) {
    y % 4 == 0 && (y % 100 != 0 || y % 400 == 0)
  }

  function DaysInMonth(y: int, m: int): (n: int)
    requires 1 <= m <= 12
    ensures 28 <= n <= 31
  {
    if m == 2 then (if IsLeap(y) then 29 else 28)
    else if m == 4 || m == 6 || m == 9 || m == 11 then 30
    else 31
  }

  /** The dates `date(y, m, d)` accepts. */
  predicate ValidDate(d: Date) {
    MIN_YEAR <= d.year <= MAX_YEAR && 1 <= d.month <= 12 && 1 <= d.day <= DaysInMonth(d.year, d.month)
  }

  /** `a < b` on dates. */
  predicate Before(a: Date, b: Date) {
    a.year < b.year || (a.year == b.year && (a.month < b.month || (a.month == b.month && a.day < b.day)))
  }

  function YearLength(y: int): int {
    if IsLeap(y) then 366 else 365
  }

  /** Days in the months of year `y` before month `m`. */
  function DaysBeforeMonth(y: int, m: int): (n: int)
    requires 1 <= m <= 13
    ensures n >= 0
    decreases m
  {
    if m == 1 then 0 else DaysBeforeMonth(y, m - 1) + DaysInMonth(y, m - 1)
  }

  /** Days in the years before `y` (`_days_before_year`). */
  function DaysBeforeYear(y: int): int
    requires y >= 1
  {
    var p := y - 1;
    p * 365 + p / 4 - p / 100 + p / 400
  }

  /** `date.toordinal`: 0001-01-01 is day 1. */
  function Ordinal(d: Date): int
    requires ValidDate(d)
  {
    DaysBeforeYear(d.year) + DaysBeforeMonth(d.year, d.month) + d.day
  }

  /** `(a - b).days`. */
  function DaysBetween(a: Date, b: Date): int
    requires ValidDate(a) && ValidDate(b)
  {
    Ordinal(a) - Ordinal(b)
  }

  lemma FullYear(y: int)
    ensures DaysBeforeMonth(y, 13) == YearLength(y)
  {
  }

  lemma NextYearStart(y: int)
    requires y >= 1
    ensures DaysBeforeYear(y + 1) == DaysBeforeYear(y) + YearLength(y)
  {
    var p := y - 1;
    assert (p + 1) / 4 == p / 4 + (if (p + 1) % 4 == 0 then 1 else 0);
    assert (p + 1) / 100 == p / 100 + (if (p + 1) % 100 == 0 then 1 else 0);
    assert (p + 1) / 400 == p / 400 + (if (p + 1) % 400 == 0 then 1 else 0);
  }

  lemma {:induction false} DaysBeforeYearGrows(y: int, z: int)
    requires 1 <= y <= z
    ensures DaysBeforeYear(y) + (z - y) * 365 <= DaysBeforeYear(z)
    decreases z - y
  {
    if y < z {
      DaysBeforeYearGrows(y + 1, z);
      NextYearStart(y);
    }
  }

  lemma {:induction false} DaysBeforeMonthGrows(y: int, m: int, n: int)
    requires 1 <= m <= n <= 13
    ensures DaysBeforeMonth(y, m) <= DaysBeforeMonth(y, n)
    decreases n - m
  {
    if m < n {
      DaysBeforeMonthGrows(y, m, n - 1);
    }
  }

  /** A day lies within its own year. */
  lemma WithinYear(d: Date)
    requires ValidDate(d)
    ensures DaysBeforeYear(d.year) < Ordinal(d) <= DaysBeforeYear(d.year) + YearLength(d.year)
  {
    DaysBeforeMonthGrows(d.year, d.month + 1, 13);
    FullYear(d.year);
  }

  /** The ordinal follows the order of dates. */
  lemma OrdinalMonotone(a: Date, b: Date)
    requires ValidDate(a) && ValidDate(b) && Before(a, b)
    ensures Ordinal(a) < Ordinal(b)
  {
    if a.year == b.year {
      if a.month < b.month {
        DaysBeforeMonthGrows(a.year, a.month + 1, b.month);
      }
    } else {
      LaterYearLaterOrdinal(a, b);
    }
  }

  lemma LaterYearLaterOrdinal(a: Date, b: Date)
    requires ValidDate(a) && ValidDate(b) && a.year < b.year
    ensures Ordinal(a) < Ordinal(b)
  {
    var ya, yb := DaysBeforeYear(a.year), DaysBeforeYear(b.year);
    WithinYear(a);
    WithinYear(b);
    NextYearStart(a.year);
    DaysBeforeYearGrows(a.year + 1, b.year);
    assert Ordinal(a) <= ya + YearLength(a.year) == DaysBeforeYear(a.year + 1) <= yb < Ordinal(b);
  }

  /** Distinct valid dates have distinct ordinals. */
  lemma OrdinalInjective(a: Date, b: Date)
    requires ValidDate(a) && ValidDate(b) && Ordinal(a) == Ordinal(b)
    ensures a == b
  {
    if Before(a, b) {
      OrdinalMonotone(a, b);
    } else if Before(b, a) {
      OrdinalMonotone(b, a);
    }
  }

  /** `a >= b` on dates is `>=` on their ordinals. */
  lemma NotBeforeOrdinal(a: Date, b: Date)
    requires ValidDate(a) && ValidDate(b) && !Before(a, b)
    ensures Ordinal(a) >= Ordinal(b)
    ensures Ordinal(a) == Ordinal(b) <==> a == b
  {
    if a != b {
      OrdinalMonotone(b, a);
    }
  }

  // ---------------------------------------------------------------------
  // datetime.strptime(text, '%Y-%m-%d').date(), and date.isoformat().
  // ---------------------------------------------------------------------

  /** An ASCII decimal digit. */
  predicate IsDigit(c: char) {
    '0' <= c <= '9'
  }

  function DigitValue(c: char): (n: int)
    requires IsDigit(c)
    ensures 0 <= n < 10
  {
    c as int - '0' as int
  }

  /** The `%m` directive, `(1[0-2]|0[1-9]|[1-9])`, together with the `-`
      the format puts after it: the month and the length of its token. A
      two-digit token needs the `-` at position 2 and a one-digit token at
      position 1, so at most one alternative can lead on, and backtracking
      has nothing to choose between. */
  function MonthToken(t: string): (r: Option<(int, nat)>)
    ensures r.Some? ==> 1 <= r.value.0 <= 12 && 1 <= r.value.1 <= 2 && r.value.1 < |t| && t[r.value.1] == '-'
  {
    if |t| >= 3 && t[2] == '-' && ((t[0] == '1' && '0' <= t[1] <= '2') || (t[0] == '0' && '1' <= t[1] <= '9')) then
      Some((10 * DigitValue(t[0]) + DigitValue(t[1]), 2))
    else if |t| >= 2 && t[1] == '-' && '1' <= t[0] <= '9' then Some((DigitValue(t[0]), 1))
    else None
  }

  /** The `%d` directive, `(3[01]|[12]\d|0[1-9]|[1-9]| [1-9])`, at the end of
      the pattern: the first alternative that matches wins, whatever follows
      it. */
  function DayToken(u: string): (r: Option<(int, nat)>)
    ensures r.Some? ==> 1 <= r.value.0 <= 31 && 1 <= r.value.1 <= 2 && r.value.1 <= |u|
  {
    if |u| >= 2 && ((u[0] == '3' && '0' <= u[1] <= '1') || ('1' <= u[0] <= '2' && IsDigit(u[1]))
                    || (u[0] == '0' && '1' <= u[1] <= '9')) then
      Some((10 * DigitValue(u[0]) + DigitValue(u[1]), 2))
    else if |u| >= 1 && '1' <= u[0] <= '9' then Some((DigitValue(u[0]), 1))
    else if |u| >= 2 && u[0] == ' ' && '1' <= u[1] <= '9' then Some((DigitValue(u[1]), 2))
    else None
  }

  /** `datetime.strptime(text, '%Y-%m-%d').date()`. The pattern `\d\d\d\d`,
      `-`, the month token, `-`, the day token must match at the start of the
      text; text left over after the day raises "unconverted data remains";
      and `date(year, month, day)` raises for year 0 or a day the month does
      not have. */
  function ParseIsoDate(text: string): (r: Result<Date>)
    ensures r.Ok? ==> ValidDate(r.value)
    ensures r.Ok? ==> 8 <= |text| <= 10 && text[4] == '-'
  {
    if |text| < 5 || !(IsDigit(text[0]) && IsDigit(text[1]) && IsDigit(text[2]) && IsDigit(text[3])) || text[4] != '-' then
      Err(NO_MATCH)
    else
      var year := 1000 * DigitValue(text[0]) + 100 * DigitValue(text[1]) + 10 * DigitValue(text[2]) + DigitValue(text[3]);
      match MonthToken(text[5..])
      case None => Err(NO_MATCH)
      case Some(mt) =>
        var rest := text[5 + mt.1 + 1..];
        match DayToken(rest)
        case None => Err(NO_MATCH)
        case Some(dt) =>
          if dt.1 != |rest| then Err(UNCONVERTED)
          else if year < MIN_YEAR then Err(YEAR_OUT_OF_RANGE)
          else if !ValidDate(Date(year, mt.0, dt.0)) then Err(OUT_OF_RANGE)
          else Ok(Date(year, mt.0, dt.0))
  }

  const NO_MATCH: string := "time data does not match format '%Y-%m-%d'"
  const UNCONVERTED: string := "unconverted data remains"
  const OUT_OF_RANGE: string := "day is out of range for month"
  const YEAR_OUT_OF_RANGE: string := "year 0 is out of range"

  /** `date.isoformat()`: the year in four digits, month and day in two. */
  function IsoText(d: Date): (r: string)
    requires ValidDate(d)
    ensures |r| == 10 && r[4] == '-' && r[7] == '-'
  {
    var y, m, n := d.year, d.month, d.day;
    [DigitChar(y / 1000), DigitChar(y / 100 % 10), DigitChar(y / 10 % 10), DigitChar(y % 10), '-',
     DigitChar(m / 10), DigitChar(m % 10), '-', DigitChar(n / 10), DigitChar(n % 10)]
  }

  lemma DigitCharValue(k: int)
    requires 0 <= k < 10
    ensures IsDigit(DigitChar(k)) && DigitValue(DigitChar(k)) == k
  {
    var s := "0123456789";
    assert s[0] == '0' && s[1] == '1' && s[2] == '2' && s[3] == '3' && s[4] == '4';
    assert s[5] == '5' && s[6] == '6' && s[7] == '7' && s[8] == '8' && s[9] == '9';
  }

  lemma FourDigits(y: int)
    requires 0 <= y < 10000
    ensures y == 1000 * (y / 1000) + 100 * (y / 100 % 10) + 10 * (y / 10 % 10) + y % 10
  {
    assert y / 100 == 10 * (y / 1000) + y / 100 % 10;
    assert y / 10 == 10 * (y / 100) + y / 10 % 10;
    assert y == 10 * (y / 10) + y % 10;
  }

  /** What `date.isoformat()` writes, `strptime` reads back: the round trip
      a stored `birth_date` makes. */
  lemma {:induction false} ParseIsoText(d: Date)
    requires ValidDate(d)
    ensures ParseIsoDate(IsoText(d)) == Ok(d)
  {
    var t := IsoText(d);
    var y, m, n := d.year, d.month, d.day;
    DigitCharValue(y / 1000);
    DigitCharValue(y / 100 % 10);
    DigitCharValue(y / 10 % 10);
    DigitCharValue(y % 10);
    FourDigits(y);
    IsoMonthToken(t[5..], m);
    IsoDayToken(t[8..], n);
    ParseOfParts(t, d);
  }

  /** A ten-character text made of a four-digit year, `-`, a two-digit month
      token and a two-digit day token parses to the date they spell. */
  lemma ParseOfParts(t: string, d: Date)
    requires ValidDate(d) && |t| == 10 && t[4] == '-'
    requires IsDigit(t[0]) && IsDigit(t[1]) && IsDigit(t[2]) && IsDigit(t[3])
    requires d.year == 1000 * DigitValue(t[0]) + 100 * DigitValue(t[1]) + 10 * DigitValue(t[2]) + DigitValue(t[3])
    requires MonthToken(t[5..]) == Some((d.month, 2)) && DayToken(t[8..]) == Some((d.day, 2))
    ensures ParseIsoDate(t) == Ok(d)
  {
    assert t[5 + 2 + 1..] == t[8..];
  }

  /** A zero-padded month followed by `-` is read as a two-digit token. */
  lemma IsoMonthToken(t: string, m: int)
    requires 1 <= m <= 12 && |t| >= 3 && t[0] == DigitChar(m / 10) && t[1] == DigitChar(m % 10) && t[2] == '-'
    ensures MonthToken(t) == Some((m, 2))
  {
    DigitCharValue(m / 10);
    DigitCharValue(m % 10);
  }

  /** A zero-padded day that ends the text is read as a two-digit token. */
  lemma IsoDayToken(u: string, n: int)
    requires 1 <= n <= 31 && |u| == 2 && u[0] == DigitChar(n / 10) && u[1] == DigitChar(n % 10)
    ensures DayToken(u) == Some((n, 2))
  {
    DigitCharValue(n / 10);
    DigitCharValue(n % 10);
  }

  /** Conversely, a ten-character text that parses, and does not write its
      day as a space and a digit, is the `isoformat` text of its date: on
      zero-padded texts the two agree exactly. */
  lemma {:induction false} ParsedIsIso(text: string)
    requires ParseIsoDate(text).Ok? && |text| == 10 && text[8] != ' '
    ensures text == IsoText(ParseIsoDate(text).value)
  {
    var d := ParseIsoDate(text).value;
    ParseParts(text);
    var y, m, n := d.year, d.month, d.day;
    DigitsOf(DigitValue(text[0]), DigitValue(text[1]), DigitValue(text[2]), DigitValue(text[3]), y);
    DigitsOf(0, 0, DigitValue(text[5]), DigitValue(text[6]), m);
    DigitsOf(0, 0, DigitValue(text[8]), DigitValue(text[9]), n);
    SameDigit(text[0], y / 1000);
    SameDigit(text[1], y / 100 % 10);
    SameDigit(text[2], y / 10 % 10);
    SameDigit(text[3], y % 10);
    SameDigit(text[5], m / 10);
    SameDigit(text[6], m % 10);
    SameDigit(text[8], n / 10);
    SameDigit(text[9], n % 10);
  }

  /** What a ten-character text that parses consists of. */
  lemma ParseParts(text: string)
    requires ParseIsoDate(text).Ok? && |text| == 10 && text[8] != ' '
    ensures forall i :: 0 <= i < 10 && i != 4 && i != 7 ==> IsDigit(text[i])
    ensures text[4] == '-' && text[7] == '-'
    ensures var d := ParseIsoDate(text).value;
      && d.year == 1000 * DigitValue(text[0]) + 100 * DigitValue(text[1]) + 10 * DigitValue(text[2]) + DigitValue(text[3])
      && d.month == 10 * DigitValue(text[5]) + DigitValue(text[6])
      && d.day == 10 * DigitValue(text[8]) + DigitValue(text[9])
  {
    var mt := MonthToken(text[5..]).value;
    var rest := text[5 + mt.1 + 1..];
    assert mt.1 == 2 && rest == text[8..];
    assert text[5..][0] == text[5] && text[5..][1] == text[6] && text[5..][2] == text[7];
    assert rest[0] == text[8] && rest[1] == text[9];
  }

  /** The decimal digits of a number below 10000. */
  lemma DigitsOf(a: int, b: int, c: int, e: int, y: int)
    requires 0 <= a < 10 && 0 <= b < 10 && 0 <= c < 10 && 0 <= e < 10
    requires y == 1000 * a + 100 * b + 10 * c + e
    ensures y / 1000 == a && y / 100 % 10 == b && y / 10 % 10 == c && y % 10 == e
  {
    assert y / 10 == 100 * a + 10 * b + c;
    assert y / 100 == 10 * a + b;
  }

  lemma SameDigit(c: char, k: int)
    requires IsDigit(c) && 0 <= k < 10 && DigitValue(c) == k
    ensures c == DigitChar(k)
  {
    DigitCharValue(k);
  }

  /** Python's `strptime` is more lenient than `isoformat`: it takes
      unpadded months and days, but not trailing text or a day the month
      does not have. */
  lemma StrptimeCases()
    ensures ParseIsoDate("2024-1-5") == Ok(Date(2024, 1, 5))
    ensures ParseIsoDate("2023-02-29") == Err(OUT_OF_RANGE)
    ensures ParseIsoDate("2024-01-32") == Err(UNCONVERTED)
    ensures ParseIsoDate("2024-01-05T10:00") == Err(UNCONVERTED)
    ensures ParseIsoDate("05/01/2024") == Err(NO_MATCH)
    ensures ParseIsoDate("0000-01-01") == Err(YEAR_OUT_OF_RANGE)
  {
    UnpaddedParses();
    MissingDayRefused();
    TrailingTextRefused();
    OtherLayoutRefused();
  }

  lemma UnpaddedParses()
    ensures ParseIsoDate("2024-1-5") == Ok(Date(2024, 1, 5))
  {
  }

  lemma MissingDayRefused()
    ensures ParseIsoDate("2023-02-29") == Err(OUT_OF_RANGE)
    ensures ParseIsoDate("0000-01-01") == Err(YEAR_OUT_OF_RANGE)
  {
  }

  /** `%d` takes `3` from `32` and `05` from `05T10:00`; the rest is left over. */
  lemma TrailingTextRefused()
    ensures ParseIsoDate("2024-01-32") == Err(UNCONVERTED)
    ensures ParseIsoDate("2024-01-05T10:00") == Err(UNCONVERTED)
  {
  }

  lemma OtherLayoutRefused()
    ensures ParseIsoDate("05/01/2024") == Err(NO_MATCH)
  {
  }
}
