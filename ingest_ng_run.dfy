/**
 * The locator of src/ingestNg.ts itself: the pointer walks of
 * `findAndParseTable` and `parseTable` and the loop of `ingest`, each
 * proved against the specification in `NgLayout`.
 */
module IngestNg {
  import opened Grid
  import opened RunLog
  import opened CellAddress
  import opened NgLayout

  /** `parseTable(cellPointer)`: step down at least once, until a row with "Dienst". */
  method ParseTable(cursor: CellPointer, run: Run, ghost c: Layout)
    requires Describes(cursor.sheet, cursor.x, c) && DienstBelow(c, cursor.y)
    modifies cursor, run
    ensures cursor.x == old(cursor.x) && cursor.y == DienstRow(c, old(cursor.y))
    ensures run.log == old(run.log) + [ParsingTable(EncodeCell(cursor.x, old(cursor.y))), ParsedRows(cursor.y - old(cursor.y))]
    ensures run.error == old(run.error)
  {
    ghost var k := DienstRow(c, cursor.y);
    ghost var probe := DienstProbe(cursor.sheet, cursor.x);
    DienstRowWalk(c, cursor.y, k);
    forall j | cursor.y < j <= k
      ensures probe(j) == DienstHit(c)(j)
    {
      assert probe(j) == HasDienst(cursor.sheet, cursor.x, j);
    }
    assert probe(k) by {
      assert probe(k) == HasDienst(cursor.sheet, cursor.x, k);
    }
    NextHitBelowAgree(probe, DienstHit(c), cursor.y, k);
    run.Log(ParsingTable(cursor.ToString()));
    var row := cursor.StepDownUntil(DienstProbe(cursor.sheet, cursor.x), k);
    run.Log(ParsedRows(row));
  }

  /** The month search of `findAndParseTable`, from the month column. */
  method SeekMonth(cursor: CellPointer, ghost c: Layout) returns (found: bool)
    requires Describes(cursor.sheet, MonthColumn, c)
    modifies cursor
    ensures found == FoundMonth(c, old(cursor.y))
    ensures cursor.x == MonthColumn && cursor.y == MonthRow(c, old(cursor.y))
  {
    cursor.x := MonthColumn;
    var initialY := cursor.y;
    ghost var probe := MonthProbe(cursor.sheet);
    forall k | initialY <= k < initialY + MonthBudget
      ensures probe(k) == MonthHit(c)(k)
    {
      assert probe(k) == IsMonthAt(cursor.sheet, MonthColumn, k);
    }
    ScanToAgree(probe, MonthHit(c), initialY, initialY + MonthBudget);
    cursor.SeekDown(MonthProbe(cursor.sheet), MonthBudget);
    found := cursor.y - initialY < MonthBudget;
  }

  /** The found branch of `findAndParseTable`: log the month cell and parse the section on a clone. */
  method FoundSection(startCell: CellPointer, run: Run, ghost c: Layout)
    requires startCell.x == MonthColumn && Describes(startCell.sheet, MonthColumn, c) && DienstBelow(c, startCell.y)
    modifies startCell, run
    ensures run.log == old(run.log) + SectionLog(c, old(startCell.y)) && run.error == old(run.error)
  {
    var at := startCell.ToString();
    run.Log(FoundTable(at));
    ParseTable(startCell, run, c);
  }

  /**
   * `findAndParseTable(cellPointer)`: move to the month column, look for a
   * month name at most `MonthBudget` rows down, and parse the section on a
   * clone.  The caller's pointer stays on the month row.
   */
  method FindAndParseTable(cursor: CellPointer, run: Run, ghost c: Layout) returns (found: bool)
    requires Describes(cursor.sheet, MonthColumn, c) && TableTerminates(c, cursor.y)
    modifies cursor, run
    ensures found == FoundMonth(c, old(cursor.y))
    ensures cursor.x == MonthColumn && cursor.y == MonthRow(c, old(cursor.y))
    ensures run.log == old(run.log) + TableLog(c, old(cursor.x), old(cursor.y))
    ensures run.error == (old(run.error) || !found)
  {
    ghost var log0 := run.log;
    var at := cursor.ToString();
    run.Log(LookingForTable(at));
    ghost var log1 := run.log;
    found := SeekMonth(cursor, c);
    if !found {
      run.Log(CouldNotFindTable);
      run.error := true;
      Concat(log0, [LookingForTable(at)], [CouldNotFindTable]);
      return;
    }
    var startCell := cursor.Clone();
    FoundSection(startCell, run, c);
    Concat(log0, [LookingForTable(at)], SectionLog(c, cursor.y));
  }

  /**
   * `ingest(fileName)` of src/ingestNg.ts over the first sheet of the
   * workbook: reset the log and the error flag, then find and parse month
   * sections, one row below the last one found, until a search fails.
   * `c` is the month column of the sheet (`ColumnOf` gives it, and
   * `DescribesUnique` shows there is no other).
   */
  method Ingest(fileName: string, sheet: Sheet, run: Run, ghost c: Layout)
    requires Describes(sheet, MonthColumn, c) && NgTerminates(c, 0)
    modifies run
    ensures run.log == [Ingesting(fileName)] + DriverLog(c, 0, 0)
    ensures run.error
  {
    run.log := [];
    run.error := false;
    run.Log(Ingesting(fileName));
    assert run.log == [Ingesting(fileName)];
    var cursor := new CellPointer(sheet, 0, 0);
    Drive(cursor, run, c);
  }

  /**
   * The loop of `ingest`: call `findAndParseTable` and move one row down
   * while it finds a section.  `rest` is what is still to be logged, the
   * remainder of `DriverLog`.
   */
  method Drive(cursor: CellPointer, run: Run, ghost c: Layout)
    requires Describes(cursor.sheet, MonthColumn, c) && NgTerminates(c, cursor.y) && !run.error
    modifies cursor, run
    ensures run.log == old(run.log) + DriverLog(c, old(cursor.x), old(cursor.y)) && run.error
  {
    ghost var total := run.log + DriverLog(c, cursor.x, cursor.y);
    var found;
    ghost var rest;
    found, rest := NextSection(cursor, run, c, DriverLog(c, cursor.x, cursor.y));
    while found && !run.error
      invariant cursor.x == MonthColumn && run.error == !found
      invariant run.log + rest == total
      invariant found ==> cursor.y < c.height && NgTerminates(c, cursor.y + 1)
      invariant found ==> rest == DriverLog(c, MonthColumn, cursor.y + 1)
      invariant !found ==> rest == []
      decreases if found then c.height - cursor.y else 0
    {
      cursor.y := cursor.y + 1;
      found, rest := NextSection(cursor, run, c, rest);
    }
    assert run.log + [] == run.log;
  }

  /**
   * One call of `findAndParseTable` in the driver loop, started where
   * `pending` (the lines the driver still logs) is `DriverLog`: the lines
   * it logs are the first step of `pending`, and what is left is the
   * driver's log from one row below the section, or nothing.
   */
  method NextSection(cursor: CellPointer, run: Run, ghost c: Layout, ghost pending: seq<Entry>)
    returns (found: bool, ghost rest: seq<Entry>)
    requires Describes(cursor.sheet, MonthColumn, c) && NgTerminates(c, cursor.y)
    requires pending == DriverLog(c, cursor.x, cursor.y)
    modifies cursor, run
    ensures cursor.x == MonthColumn && old(cursor.y) <= cursor.y
    ensures run.error == (old(run.error) || !found)
    ensures run.log + rest == old(run.log) + pending
    ensures found ==> cursor.y < c.height && NgTerminates(c, cursor.y + 1)
    ensures found ==> rest == DriverLog(c, MonthColumn, cursor.y + 1)
    ensures !found ==> rest == []
  {
    ghost var x, y, log0 := cursor.x, cursor.y, run.log;
    DriverStep(c, x, y);
    found := FindAndParseTable(cursor, run, c);
    if found {
      rest := DriverLog(c, MonthColumn, cursor.y + 1);
      Concat(log0, TableLog(c, x, y), rest);
    } else {
      rest := [];
    }
  }
}
