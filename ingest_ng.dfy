/**
 * src/ingestNg.ts: the newer locator, which walks down the second column
 * of the sheet from one month section to the next.  A section starts at a
 * cell holding a German month name and ends at the first row below whose
 * text contains "Dienst".
 *
 * What the locator computes depends on the sheet only through one column:
 * which of its rows hold a month name and which contain "Dienst".  The
 * specification functions below are stated over that `Layout`; the methods,
 * which read the real cells, take it as a ghost parameter together with
 * the fact `Describes` that ties it to the sheet.
 */
module NgLayout {
  import opened Strings
  import opened CellAddress
  import opened Grid
  import opened RunLog

  const Months: seq<string> := ["Januar", "Februar", "März", "April", "Mai", "Juni", "Juli",
                                "August", "September", "Oktober", "November", "Dezember"]

  /** The column the month names are looked for in. */
  const MonthColumn: nat := 1
  /** How many rows the month search moves down before it gives up. */
  const MonthBudget: nat := 20

  /** `months.includes(s)` */
  predicate IsMonthName(s: string) {
    s in Months
  }

  /** The decoded text of the cell is exactly a month name. */
  predicate IsMonthAt(sheet: Sheet, x: nat, y: nat) {
    IsMonthName(DecodedText(sheet, x, y))
  }

  /** The decoded text of the cell contains "Dienst". */
  predicate HasDienst(sheet: Sheet, x: nat, y: nat) {
    Contains(DecodedText(sheet, x, y), "Dienst")
  }

  /** The probe of the month search. */
  function MonthProbe(sheet: Sheet): nat -> bool {
    (row: nat) => IsMonthAt(sheet, MonthColumn, row)
  }

  /** The probe that ends a section in column `x`. */
  function DienstProbe(sheet: Sheet, x: nat): nat -> bool {
    (row: nat) => HasDienst(sheet, x, row)
  }

  /** A row with a month name or with "Dienst" holds a cell. */
  lemma TextInSheet(sheet: Sheet, x: nat, y: nat)
    ensures IsMonthAt(sheet, x, y) || HasDienst(sheet, x, y) ==> (x, y) in sheet.Keys
  {
    assert !Contains("", "Dienst");
    assert "" !in Months;
  }

  /** One column of a sheet: its rows with a month name, its rows with "Dienst", and a row below all of them. */
  datatype Column = Column(months: set<nat>, dienst: set<nat>, height: nat)

  /** A column whose marked rows all lie above its height. */
  type Layout = c: Column | (forall k :: k in c.months ==> k < c.height) && (forall k :: k in c.dienst ==> k < c.height)
    witness Column({}, {}, 0)

  /** `c` is column `x` of `sheet`. */
  ghost predicate Describes(sheet: Sheet, x: nat, c: Layout) {
    && c.height == RowBound(sheet.Keys)
    && (forall k {:trigger IsMonthAt(sheet, x, k)} :: IsMonthAt(sheet, x, k) <==> k in c.months)
    && (forall k {:trigger HasDienst(sheet, x, k)} :: HasDienst(sheet, x, k) <==> k in c.dienst)
  }

  /** Column `x` of `sheet`. */
  ghost function ColumnOf(sheet: Sheet, x: nat): (c: Layout)
    ensures Describes(sheet, x, c)
  {
    var b := RowBound(sheet.Keys);
    var months := set k: nat | k < b && IsMonthAt(sheet, x, k);
    var dienst := set k: nat | k < b && HasDienst(sheet, x, k);
    forall k: nat | IsMonthAt(sheet, x, k) || HasDienst(sheet, x, k)
      ensures k < b
    {
      TextInSheet(sheet, x, k);
    }
    Column(months, dienst, b)
  }

  /** A column is determined by the sheet it describes. */
  lemma DescribesUnique(sheet: Sheet, x: nat, c: Layout)
    requires Describes(sheet, x, c)
    ensures c == ColumnOf(sheet, x)
  {
    var d := ColumnOf(sheet, x);
    forall k: nat
      ensures (k in c.months <==> k in d.months) && (k in c.dienst <==> k in d.dienst)
    {
      assert IsMonthAt(sheet, x, k) <==> k in c.months;
      assert HasDienst(sheet, x, k) <==> k in c.dienst;
    }
  }

  function MonthHit(c: Layout): nat -> bool {
    (row: nat) => row in c.months
  }

  function DienstHit(c: Layout): nat -> bool {
    (row: nat) => row in c.dienst
  }

  /** Where the month search from row `y` stops. */
  function MonthRow(c: Layout, y: nat): (m: nat)
    ensures y <= m <= y + MonthBudget
  {
    ScanDown(MonthHit(c), y, MonthBudget)
  }

  /** The month search from row `y` finds a month name. */
  predicate FoundMonth(c: Layout, y: nat) {
    MonthRow(c, y) - y < MonthBudget
  }

  /**
   * The month search passes only rows without a month name and, when it
   * succeeds, stops on one, which lies inside the sheet.
   */
  lemma MonthRowSpec(c: Layout, y: nat)
    ensures var m := MonthRow(c, y);
      && y <= m <= y + MonthBudget
      && (forall k :: y <= k < m ==> k !in c.months)
      && (FoundMonth(c, y) <==> m in c.months && m < y + MonthBudget)
      && (FoundMonth(c, y) ==> m < c.height)
  {
    var hit := MonthHit(c);
    ScanDownSpec(hit, y, MonthBudget);
    var m := MonthRow(c, y);
    forall k | y <= k < m
      ensures k !in c.months
    {
      assert !hit(k);
    }
    if m < y + MonthBudget {
      assert hit(m);
    }
  }

  /** Some row below `y` has "Dienst". */
  ghost predicate DienstBelow(c: Layout, y: nat) {
    exists k :: y < k && k in c.dienst
  }

  /** Where `parseTable` stops: the first row below `y` with "Dienst". */
  function DienstRow(c: Layout, y: nat): (k: nat)
    requires DienstBelow(c, y)
    ensures y < k && k in c.dienst
    decreases c.height - y
  {
    if y + 1 in c.dienst then y + 1
    else
      assert DienstBelow(c, y + 1) by {
        var k :| y < k && k in c.dienst;
        assert y + 1 < k;
      }
      DienstRow(c, y + 1)
  }

  /** No row between `y` and `DienstRow` has "Dienst". */
  lemma {:induction false} DienstRowSpec(c: Layout, y: nat)
    requires DienstBelow(c, y)
    ensures forall j :: y < j < DienstRow(c, y) ==> j !in c.dienst
    decreases c.height - y
  {
    if y + 1 !in c.dienst {
      var k :| y < k && k in c.dienst;
      assert DienstBelow(c, y + 1) by {
        assert y + 1 < k;
      }
      DienstRowSpec(c, y + 1);
    }
  }

  /** `DienstRow` is the walk of `parseTable`: the first hit of the probe below `y`. */
  lemma {:induction false} DienstRowWalk(c: Layout, y: nat, k: nat)
    requires y < k && k in c.dienst
    ensures DienstBelow(c, y) && DienstRow(c, y) == NextHitBelow(DienstHit(c), y, k)
    decreases k - y
  {
    var hit := DienstHit(c);
    assert hit(k);
    if y + 1 !in c.dienst {
      assert !hit(y + 1);
      DienstRowWalk(c, y + 1, k);
    } else {
      assert hit(y + 1);
    }
  }

  /**
   * The `do … while` of `parseTable` ends only if a row below has
   * "Dienst"; the search from `y` needs that below the month row it finds.
   */
  ghost predicate TableTerminates(c: Layout, y: nat) {
    FoundMonth(c, y) ==> DienstBelow(c, MonthRow(c, y))
  }

  /**
   * The driver loop returns when every month section it reaches, one after
   * the other, has a "Dienst" row below it.
   */
  ghost predicate NgTerminates(c: Layout, y: nat)
    decreases c.height - y
  {
    FoundMonth(c, y) ==>
      (MonthRowSpec(c, y);
       DienstBelow(c, MonthRow(c, y)) && NgTerminates(c, MonthRow(c, y) + 1))
  }

  /** The lines the found branch of `findAndParseTable` logs for the month row `m`. */
  ghost function SectionLog(c: Layout, m: nat): (log: seq<Entry>)
    requires DienstBelow(c, m)
  {
    [FoundTable(EncodeCell(MonthColumn, m)), ParsingTable(EncodeCell(MonthColumn, m)),
     ParsedRows(DienstRow(c, m) - m)]
  }

  /** The lines one call of `findAndParseTable(cellPointer)` logs when started at (x, y). */
  ghost function TableLog(c: Layout, x: nat, y: nat): (log: seq<Entry>)
    requires TableTerminates(c, y)
  {
    [LookingForTable(EncodeCell(x, y))] +
      if !FoundMonth(c, y) then [CouldNotFindTable] else SectionLog(c, MonthRow(c, y))
  }

  /** The lines the driver loop logs from a pointer at (x, y). */
  ghost function DriverLog(c: Layout, x: nat, y: nat): seq<Entry>
    requires NgTerminates(c, y)
    decreases c.height - y
  {
    if !FoundMonth(c, y) then TableLog(c, x, y)
    else
      MonthRowSpec(c, y);
      TableLog(c, x, y) + DriverLog(c, MonthColumn, MonthRow(c, y) + 1)
  }

  /** One step of the driver: a search, then, if it succeeds, the rest from the row below. */
  lemma DriverStep(c: Layout, x: nat, y: nat)
    requires NgTerminates(c, y)
    ensures TableTerminates(c, y)
    ensures !FoundMonth(c, y) ==> DriverLog(c, x, y) == TableLog(c, x, y)
    ensures FoundMonth(c, y) ==> var m := MonthRow(c, y);
      && m < c.height && NgTerminates(c, m + 1)
      && DriverLog(c, x, y) == TableLog(c, x, y) + DriverLog(c, MonthColumn, m + 1)
  {
    MonthRowSpec(c, y);
  }

  /** The month rows the driver loop finds from row `y`, in order. */
  ghost function Sections(c: Layout, y: nat): (ms: seq<nat>)
    decreases c.height - y
  {
    if !FoundMonth(c, y) then []
    else
      MonthRowSpec(c, y);
      [MonthRow(c, y)] + Sections(c, MonthRow(c, y) + 1)
  }

  /**
   * Section `i` is where the month search stops when it starts one row
   * below the previous section (at `y` for the first), and that search
   * succeeds; after the last section the next search fails.
   */
  lemma {:induction false} SectionsStep(c: Layout, y: nat, i: nat)
    requires i < |Sections(c, y)|
    ensures var ms := Sections(c, y);
      var start := if i == 0 then y else ms[i - 1] + 1;
      && FoundMonth(c, start) && ms[i] == MonthRow(c, start)
      && (i + 1 == |ms| ==> !FoundMonth(c, ms[i] + 1))
    decreases c.height - y
  {
    var m := MonthRow(c, y);
    MonthRowSpec(c, y);
    var ms, rest := Sections(c, y), Sections(c, m + 1);
    assert ms == [m] + rest;
    if i > 0 {
      SectionsStep(c, m + 1, i - 1);
      assert ms[i] == rest[i - 1];
      if i > 1 {
        assert ms[i - 1] == rest[i - 2];
      }
    }
  }

  /**
   * The sections, in order: section `i` holds a month name, no row between
   * the start of its search and it does, it lies fewer than `MonthBudget`
   * rows below that start, and after the last one the search fails.
   */
  lemma SectionsSpec(c: Layout, y: nat, i: nat)
    requires i < |Sections(c, y)|
    ensures var ms := Sections(c, y);
      var start := if i == 0 then y else ms[i - 1] + 1;
      && start <= ms[i] < start + MonthBudget
      && ms[i] in c.months
      && (forall k :: start <= k < ms[i] ==> k !in c.months)
      && (i + 1 == |ms| ==> !FoundMonth(c, ms[i] + 1))
  {
    var ms := Sections(c, y);
    var start := if i == 0 then y else ms[i - 1] + 1;
    SectionsStep(c, y, i);
    MonthRowSpec(c, start);
  }
}
