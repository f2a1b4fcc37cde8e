/**
 * Spreadsheet cell addresses in A1 notation, as the xlsx library's
 * `utils.encode_cell` / `utils.decode_cell` produce and read them: a column
 * name in bijective base 26 ("A".."Z", "AA", ...) followed by the one-based
 * row number in decimal.  Decoding is the library's single left-to-right
 * pass, which accumulates digits into the row and capital letters into the
 * column and ignores every other character.
 */
module CellAddress {
  import opened Wrappers

  predicate IsCapital(ch: char) { 'A' <= ch <= 'Z' }
  predicate IsDigit(ch: char) { '0' <= ch <= '9' }

  function Letter(k: nat): (ch: char)
    requires k < 26
    ensures IsCapital(ch) && ch as int - 'A' as int == k
  {
    ('A' as int + k) as char
  }

  function Digit(k: nat): (ch: char)
    requires k < 10
    ensures IsDigit(ch) && ch as int - '0' as int == k
  {
    ('0' as int + k) as char
  }

  /** `encode_col(c)`: column 0 is "A", 25 is "Z", 26 is "AA". */
  function ColumnName(c: nat): (s: string)
    ensures |s| >= 1 && forall i :: 0 <= i < |s| ==> IsCapital(s[i])
  {
    if c < 26 then [Letter(c)] else ColumnName(c / 26 - 1) + [Letter(c % 26)]
  }

  /** The decimal numeral of `n`, without leading zeros. */
  function Decimal(n: nat): (s: string)
    ensures |s| >= 1 && forall i :: 0 <= i < |s| ==> IsDigit(s[i])
  {
    if n < 10 then [Digit(n)] else Decimal(n / 10) + [Digit(n % 10)]
  }

  /** `encode_cell({c, r})` */
  function EncodeCell(c: nat, r: nat): string {
    ColumnName(c) + Decimal(r + 1)
  }

  /** The running (row, column) accumulators of `decode_cell` after reading all of `s`. */
  function Scan(s: string): (nat, nat) {
    if s == [] then (0, 0) else
      var acc := Scan(s[..|s| - 1]);
      var ch := s[|s| - 1];
      if IsDigit(ch) then (10 * acc.0 + (ch as int - '0' as int), acc.1)
      else if IsCapital(ch) then (acc.0, 26 * acc.1 + (ch as int - 'A' as int) + 1)
      else acc
  }

  /**
   * `decode_cell(s)`, giving `(column, row)`.  The library returns -1 for a
   * missing part; such a string never reaches the ingestion code, and here
   * it is `None`.
   */
  function DecodeCell(s: string): Option<(nat, nat)> {
    var acc := Scan(s);
    if acc.0 >= 1 && acc.1 >= 1 then Some((acc.1 - 1, acc.0 - 1)) else None
  }

  lemma {:induction false} ScanColumnName(c: nat)
    ensures Scan(ColumnName(c)) == (0, c + 1)
  {
    var s := ColumnName(c);
    if c >= 26 {
      ScanColumnName(c / 26 - 1);
      assert s[..|s| - 1] == ColumnName(c / 26 - 1);
    } else {
      assert s[..|s| - 1] == [];
    }
  }

  lemma {:induction false} ScanDecimal(p: string, col: nat, n: nat)
    requires Scan(p) == (0, col)
    ensures Scan(p + Decimal(n)) == (n, col)
  {
    var s := p + Decimal(n);
    if n >= 10 {
      ScanDecimal(p, col, n / 10);
      assert s[..|s| - 1] == p + Decimal(n / 10);
    } else {
      assert s[..|s| - 1] == p;
    }
  }

  /** Decoding an encoded address gives back the coordinates. */
  lemma {:induction false} DecodeEncode(c: nat, r: nat)
    ensures DecodeCell(EncodeCell(c, r)) == Some((c, r))
  {
    ScanColumnName(c);
    ScanDecimal(ColumnName(c), c + 1, r + 1);
  }

  /** Hence distinct cells have distinct addresses. */
  lemma EncodeInjective(c1: nat, r1: nat, c2: nat, r2: nat)
    requires EncodeCell(c1, r1) == EncodeCell(c2, r2)
    ensures c1 == c2 && r1 == r2
  {
    DecodeEncode(c1, r1);
    DecodeEncode(c2, r2);
  }
}
