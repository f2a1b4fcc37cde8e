/**
 * The month a roster file is for, read from its path by `ingest` in
 * src/ingest.ts: a path ending in "/YYYY-MM.xlsx" names year and month,
 * the bare path "/MM.xlsx" names a month of the current year.  The year
 * and month go through JavaScript's `new Date(year, month - 1, …)`, so a
 * two-digit year counts from 1900 and a month outside 1 .. 12 rolls over.
 */
module FileDate {
  import opened Wrappers
  import opened CellAddress
  import opened Calendar

  predicate AllDigits(s: string) {
    forall i :: 0 <= i < |s| ==> IsDigit(s[i])
  }

  /** `parseInt` of a string of decimal digits. */
  function NumeralValue(s: string): nat
    requires AllDigits(s)
  {
    if s == [] then 0 else 10 * NumeralValue(s[..|s| - 1]) + (s[|s| - 1] as int - '0' as int)
  }

  const Extension: string := ".xlsx"

  /** The length of "/YYYY-MM.xlsx". */
  const MonthPathLength: nat := 13

  /** `/\/(\d{4})-(\d{2})\.xlsx$/` matches: the path's last 13 characters have that shape. */
  predicate IsMonthPath(f: string) {
    |f| >= MonthPathLength &&
    var t := f[|f| - MonthPathLength..];
    t[0] == '/' && AllDigits(t[1..5]) && t[5] == '-' && AllDigits(t[6..8]) && t[8..] == Extension
  }

  /** `/^\/(\d{2})\.xlsx$/` matches: the whole path has that shape. */
  predicate IsShortPath(f: string) {
    |f| == 8 && f[0] == '/' && AllDigits(f[1..3]) && f[3..] == Extension
  }

  /**
   * The (year, month) of the file `f`, tried in the order of the source;
   * `None` where `ingest` throws "Could not parse date from filename".
   * `currentYear` stands for `dayjs().year()`.
   */
  function ParseFileName(f: string, currentYear: nat): Option<(nat, Month)> {
    if IsMonthPath(f) then
      var t := f[|f| - MonthPathLength..];
      Some(JsMonth(JsYear(NumeralValue(t[1..5])), NumeralValue(t[6..8]) - 1))
    else if IsShortPath(f) then
      Some(JsMonth(JsYear(currentYear), NumeralValue(f[1..3]) - 1))
    else None
  }

  /** Two decimal digits, with a leading zero. */
  function Numeral2(n: nat): (s: string)
    requires n < 100
    ensures |s| == 2 && AllDigits(s)
  {
    [Digit(n / 10), Digit(n % 10)]
  }

  /** Four decimal digits, with leading zeros. */
  function Numeral4(n: nat): (s: string)
    requires n < 10000
    ensures |s| == 4 && AllDigits(s)
  {
    [Digit(n / 1000), Digit(n / 100 % 10), Digit(n / 10 % 10), Digit(n % 10)]
  }

  lemma Numeral2Value(n: nat)
    requires n < 100
    ensures NumeralValue(Numeral2(n)) == n
  {
    var s := Numeral2(n);
    assert s[..1][..0] == [];
    assert s[..1] == [Digit(n / 10)];
    assert NumeralValue(s[..1]) == n / 10;
  }

  lemma Numeral4Value(n: nat)
    requires n < 10000
    ensures NumeralValue(Numeral4(n)) == n
  {
    var s := Numeral4(n);
    assert s[..1][..0] == [];
    assert s[..3][..2][..1] == s[..1];
    assert s[..3][..2] == s[..2];
    assert NumeralValue(s[..1]) == n / 1000;
    assert NumeralValue(s[..2]) == 10 * (n / 1000) + n / 100 % 10 == n / 100;
    assert NumeralValue(s[..3]) == 10 * (n / 100) + n / 10 % 10 == n / 10;
  }

  /** The name the month file of `m` in year `y` has. */
  function MonthFileName(y: nat, m: Month): string
    requires y < 10000
  {
    "/" + Numeral4(y) + "-" + Numeral2(m) + Extension
  }

  /** The short name of the file of month `m`. */
  function ShortFileName(m: Month): string {
    "/" + Numeral2(m) + Extension
  }

  /**
   * The month file of a year from 100 on, in any directory, is read back
   * as that year and month.
   */
  lemma ParseMonthFileName(dir: string, y: nat, m: Month, currentYear: nat)
    requires 100 <= y < 10000
    ensures ParseFileName(dir + MonthFileName(y, m), currentYear) == Some((y, m))
  {
    var f := dir + MonthFileName(y, m);
    var t := f[|f| - MonthPathLength..];
    assert t == MonthFileName(y, m);
    assert t[1..5] == Numeral4(y) && t[6..8] == Numeral2(m) && t[8..] == Extension;
    Numeral4Value(y);
    Numeral2Value(m);
  }

  /** The short name is read as that month of the current year. */
  lemma ParseShortFileName(m: Month, currentYear: nat)
    requires currentYear >= 100
    ensures ParseFileName(ShortFileName(m), currentYear) == Some((currentYear, m))
  {
    var f := ShortFileName(m);
    assert f[1..3] == Numeral2(m) && f[3..] == Extension;
    assert !IsMonthPath(f);
    Numeral2Value(m);
  }

  /** The short name counts only as the whole path: in a directory it is no month file. */
  lemma ShortNameInDirectory(m: Month, currentYear: nat)
    ensures ParseFileName("/data" + ShortFileName(m), currentYear) == None
  {
    var f := "/data" + ShortFileName(m);
    assert |f| == MonthPathLength && f[1..5][0] == 'd';
  }

  /** A month number of 13 or 00 rolls over into the next or the previous year. */
  lemma MonthRollsOver(currentYear: nat)
    ensures ParseFileName("/2024-13.xlsx", currentYear) == Some((2025, 1))
    ensures ParseFileName("/2024-00.xlsx", currentYear) == Some((2023, 12))
  {
    var f, g := "/2024-13.xlsx", "/2024-00.xlsx";
    assert f[1..5] == Numeral4(2024) && f[6..8] == Numeral2(13);
    assert g[1..5] == Numeral4(2024) && g[6..8] == Numeral2(0);
    Numeral4Value(2024);
    Numeral2Value(13);
    Numeral2Value(0);
  }

  /** A year below 100 is a year of the 1900s. */
  lemma TwoDigitYear(currentYear: nat)
    ensures ParseFileName("/0099-05.xlsx", currentYear) == Some((1999, 5))
  {
    var f := "/0099-05.xlsx";
    assert f[1..5] == Numeral4(99) && f[6..8] == Numeral2(5);
    Numeral4Value(99);
    Numeral2Value(5);
  }

  /** A one-digit month or another extension is no month file. */
  lemma MalformedNames(currentYear: nat)
    ensures ParseFileName("/2024-5.xlsx", currentYear) == None
    ensures ParseFileName("/2024-05.xls", currentYear) == None
  {
    var f, g := "/2024-5.xlsx", "/2024-05.xls";
    assert |f| < MonthPathLength && |g| < MonthPathLength;
  }
}
