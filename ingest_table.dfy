/**
 * `findAndParseTable` of src/ingest.ts: locate a roster table below the
 * pointer, read its "Lastname, Firstname" rows into the person record and
 * append one day per integer header column to every person.
 */
module IngestTable {
  import opened Wrappers
  import opened Strings
  import opened CellAddress
  import opened Grid
  import opened RunLog

  /** One day of a person's row: the header's day number and the cell text. */
  datatype Day = Day(day: int, schedule: string)

  /** A person found in the name column, bookmarked by the address of the name cell. */
  datatype Person = Person(firstName: string, lastName: string, cell: string, days: seq<Day>)

  /**
   * The `persons` record: last name to person, with the keys in insertion
   * order (the order `for (const k in persons)` visits them).
   */
  datatype Roster = Roster(keys: seq<string>, entries: map<string, Person>)

  /** No key is listed twice. */
  ghost predicate Distinct(keys: seq<string>) {
    forall i, j :: 0 <= i < j < |keys| ==> keys[i] != keys[j]
  }

  /** Every person of the record is listed among the keys. */
  ghost predicate Listed(r: Roster) {
    forall k :: k in r.entries ==> k in r.keys
  }

  /** Every person is filed under its own last name. */
  ghost predicate Filed(r: Roster) {
    forall k :: k in r.entries ==> r.entries[k].lastName == k
  }

  /** Every listed key names a person whose bookmark is a cell address. */
  ghost predicate Bookmarked(r: Roster) {
    forall i :: 0 <= i < |r.keys| ==> r.keys[i] in r.entries && DecodeCell(r.entries[r.keys[i]].cell).Some?
  }

  /** The shape every person record has during a run. */
  ghost predicate ValidRoster(r: Roster) {
    Distinct(r.keys) && Listed(r) && Filed(r) && Bookmarked(r)
  }

  const EmptyRoster: Roster := Roster([], map[])

  /** The row a person is bookmarked at. */
  function RowOf(p: Person): nat
    requires DecodeCell(p.cell).Some?
  {
    DecodeCell(p.cell).value.1
  }

  const HeaderBudget: nat := 10
  const NameBudget: nat := 10
  /** Past this column the day scan no longer skips non-integer columns. */
  const ColumnLimit: nat := 100

  /** The header label: the lower-cased text of the cell contains "name". */
  predicate IsHeaderAt(sheet: Sheet, x: nat, y: nat) {
    Contains(ToLower(RawText(sheet, x, y)), "name")
  }

  /**
   * A name row: the lower-cased text of the cell contains a comma, which
   * holds exactly when the text itself has one (`NameComma`).
   */
  predicate IsNameAt(sheet: Sheet, x: nat, y: nat) {
    Contains(ToLower(RawText(sheet, x, y)), ",")
  }

  function HeaderProbe(sheet: Sheet, x: nat): nat -> bool {
    (row: nat) => IsHeaderAt(sheet, x, row)
  }

  function NameProbe(sheet: Sheet, x: nat): nat -> bool {
    (row: nat) => IsNameAt(sheet, x, row)
  }

  /** Lower-casing neither adds nor removes a comma. */
  lemma LowerComma(t: string)
    ensures Contains(ToLower(t), ",") <==> ',' in t
  {
    var s := ToLower(t);
    ContainsFromSpec(s, ",", 0);
    if ',' in t {
      var i :| 0 <= i < |t| && t[i] == ',';
      assert s[i..i + 1] == [s[i]];
      assert OccursAt(s, ",", i);
    }
    if Contains(s, ",") {
      var i: nat :| OccursAt(s, ",", i);
      assert s[i..i + 1][0] == s[i];
      assert LowerChar(t[i]) == ',';
    }
  }

  /** A name row is one whose text has a comma. */
  lemma NameComma(sheet: Sheet, x: nat, y: nat)
    ensures IsNameAt(sheet, x, y) <==> ',' in RawText(sheet, x, y)
  {
    LowerComma(RawText(sheet, x, y));
  }

  /** `name[0].trim()` of a name row. */
  function LastNameAt(sheet: Sheet, x: nat, y: nat): string
    requires IsNameAt(sheet, x, y)
  {
    Trim(SplitField(RawText(sheet, x, y), ',', 0))
  }

  /** `name[1].trim()` of a name row. */
  function FirstNameAt(sheet: Sheet, x: nat, y: nat): string
    requires IsNameAt(sheet, x, y)
  {
    NameComma(sheet, x, y);
    Trim(SplitField(RawText(sheet, x, y), ',', 1))
  }

  /** The first row at or below `y` that is not a name row. */
  function NameRunEnd(sheet: Sheet, x: nat, y: nat): (e: nat)
    ensures y <= e && !IsNameAt(sheet, x, e)
    decreases RowBound(sheet.Keys) - y
  {
    if IsNameAt(sheet, x, y) then
      assert (x, y) in sheet.Keys;
      NameRunEnd(sheet, x, y + 1)
    else y
  }

  /** One pass of the name loop over the name row `y`. */
  function AddPerson(r: Roster, sheet: Sheet, x: nat, y: nat): Roster
    requires IsNameAt(sheet, x, y)
  {
    var last := LastNameAt(sheet, x, y);
    if last in r.entries then
      Roster(r.keys, r.entries[last := r.entries[last].(cell := EncodeCell(x, y))])
    else
      Roster(r.keys + [last], r.entries[last := Person(FirstNameAt(sheet, x, y), last, EncodeCell(x, y), [])])
  }

  /** The name loop over the consecutive name rows from `y` on. */
  function AddNames(sheet: Sheet, x: nat, y: nat, r: Roster): Roster
    decreases RowBound(sheet.Keys) - y
  {
    if IsNameAt(sheet, x, y) then
      assert (x, y) in sheet.Keys;
      AddNames(sheet, x, y + 1, AddPerson(r, sheet, x, y))
    else r
  }

  lemma AddPersonFiled(r: Roster, sheet: Sheet, x: nat, y: nat)
    requires Filed(r) && IsNameAt(sheet, x, y)
    ensures Filed(AddPerson(r, sheet, x, y))
  {
  }

  lemma AddPersonValid(r: Roster, sheet: Sheet, x: nat, y: nat)
    requires ValidRoster(r) && IsNameAt(sheet, x, y)
    ensures ValidRoster(AddPerson(r, sheet, x, y))
  {
    DecodeEncode(x, y);
    var last := LastNameAt(sheet, x, y);
    if last !in r.entries {
      assert last !in r.keys;
    }
  }

  lemma {:induction false} AddNamesValid(sheet: Sheet, x: nat, y: nat, r: Roster)
    requires ValidRoster(r)
    ensures ValidRoster(AddNames(sheet, x, y, r))
    decreases RowBound(sheet.Keys) - y
  {
    if IsNameAt(sheet, x, y) {
      assert (x, y) in sheet.Keys;
      AddPersonValid(r, sheet, x, y);
      AddNamesValid(sheet, x, y + 1, AddPerson(r, sheet, x, y));
    }
  }

  lemma NameStep(sheet: Sheet, x: nat, y: nat, r: Roster)
    requires IsNameAt(sheet, x, y)
    ensures AddNames(sheet, x, y, r) == AddNames(sheet, x, y + 1, AddPerson(r, sheet, x, y))
    ensures NameRunEnd(sheet, x, y) == NameRunEnd(sheet, x, y + 1)
  {
  }

  /** One name row: its last name now names a person bookmarked there, and only that person changed. */
  lemma AddPersonSpec(r: Roster, sheet: Sheet, x: nat, y: nat)
    requires IsNameAt(sheet, x, y)
    ensures var r1, k := AddPerson(r, sheet, x, y), LastNameAt(sheet, x, y);
      && k in r1.entries && r1.entries[k].cell == EncodeCell(x, y)
      && DecodeCell(r1.entries[k].cell) == Some((x, y))
      && r1.entries.Keys == r.entries.Keys + {k}
      && (forall j :: j in r.entries ==> r1.entries[j].(cell := r.entries[j].cell) == r.entries[j])
      && (forall j :: j in r.entries && j != k ==> r1.entries[j] == r.entries[j])
      && (k !in r.entries ==> r1.entries[k].days == [] && r1.entries[k].firstName == FirstNameAt(sheet, x, y))
      && |r.keys| <= |r1.keys| && r1.keys[..|r.keys|] == r.keys
  {
    DecodeEncode(x, y);
    assert AddPerson(r, sheet, x, y).keys[..|r.keys|] == r.keys;
  }

  /** Every row of the run before `NameRunEnd` is a name row. */
  lemma {:induction false} NameRunSpec(sheet: Sheet, x: nat, y: nat)
    ensures forall row :: y <= row < NameRunEnd(sheet, x, y) ==> IsNameAt(sheet, x, row)
    decreases RowBound(sheet.Keys) - y
  {
    if IsNameAt(sheet, x, y) {
      assert (x, y) in sheet.Keys;
      NameRunSpec(sheet, x, y + 1);
    }
  }

  /** The name loop only appends keys. */
  lemma {:induction false} AddNamesKeys(sheet: Sheet, x: nat, y: nat, r: Roster)
    ensures var r' := AddNames(sheet, x, y, r);
      |r.keys| <= |r'.keys| && r'.keys[..|r.keys|] == r.keys
    decreases RowBound(sheet.Keys) - y
  {
    var r' := AddNames(sheet, x, y, r);
    if IsNameAt(sheet, x, y) {
      assert (x, y) in sheet.Keys;
      var r1 := AddPerson(r, sheet, x, y);
      AddPersonSpec(r, sheet, x, y);
      AddNamesKeys(sheet, x, y + 1, r1);
      assert r'.keys[..|r.keys|] == r'.keys[..|r1.keys|][..|r.keys|];
    } else {
      assert r.keys[..|r.keys|] == r.keys;
    }
  }

  /** The name loop keeps every known person, moving at most its bookmark. */
  lemma {:induction false} AddNamesKeep(sheet: Sheet, x: nat, y: nat, r: Roster)
    ensures var r' := AddNames(sheet, x, y, r);
      forall k :: k in r.entries ==> k in r'.entries && r'.entries[k].(cell := r.entries[k].cell) == r.entries[k]
    decreases RowBound(sheet.Keys) - y
  {
    if IsNameAt(sheet, x, y) {
      assert (x, y) in sheet.Keys;
      AddPersonSpec(r, sheet, x, y);
      AddNamesKeep(sheet, x, y + 1, AddPerson(r, sheet, x, y));
    }
  }

  /** The person `p` is bookmarked at a name row in `[y, e)` that carries the last name `k`. */
  ghost predicate BookedIn(sheet: Sheet, x: nat, y: nat, e: nat, p: Person, k: string) {
    DecodeCell(p.cell).Some? && y <= RowOf(p) < e
    && IsNameAt(sheet, x, RowOf(p)) && LastNameAt(sheet, x, RowOf(p)) == k
  }

  /**
   * A person of the result is either untouched by the name loop, or a new
   * person without days, or bookmarked at a row of the run with its name.
   */
  lemma {:induction false} AddNamesOrigin(sheet: Sheet, x: nat, y: nat, r: Roster)
    ensures var r', e := AddNames(sheet, x, y, r), NameRunEnd(sheet, x, y);
      forall k :: k in r'.entries ==>
        ((k in r.entries && r'.entries[k] == r.entries[k]) || BookedIn(sheet, x, y, e, r'.entries[k], k))
        && (k !in r.entries ==> r'.entries[k].days == [])
    decreases RowBound(sheet.Keys) - y
  {
    if IsNameAt(sheet, x, y) {
      assert (x, y) in sheet.Keys;
      var r1 := AddPerson(r, sheet, x, y);
      AddPersonSpec(r, sheet, x, y);
      AddNamesOrigin(sheet, x, y + 1, r1);
      AddNamesKeep(sheet, x, y + 1, r1);
      NameStep(sheet, x, y, r);
      var r', e := AddNames(sheet, x, y, r), NameRunEnd(sheet, x, y);
      var k := LastNameAt(sheet, x, y);
      forall j | j in r'.entries
        ensures (j in r.entries && r'.entries[j] == r.entries[j]) || BookedIn(sheet, x, y, e, r'.entries[j], j)
        ensures j !in r.entries ==> r'.entries[j].days == []
      {
        if !(j in r1.entries && r'.entries[j] == r1.entries[j]) {
          assert BookedIn(sheet, x, y + 1, e, r'.entries[j], j);
        } else if j == k {
          assert RowOf(r1.entries[k]) == y;
        }
        if j !in r.entries {
          if j in r1.entries {
            assert j == k && r'.entries[j].days == r1.entries[j].days;
          }
        }
      }
    }
  }

  /**
   * Every last name of the run `[y, e)` names a person bookmarked at a row
   * of the run at or after it with that name: at the last such row.
   */
  lemma {:induction false} AddNamesBookmarks(sheet: Sheet, x: nat, y: nat, r: Roster)
    ensures var r', e := AddNames(sheet, x, y, r), NameRunEnd(sheet, x, y);
      forall row :: y <= row < e && IsNameAt(sheet, x, row) ==>
        LastNameAt(sheet, x, row) in r'.entries
        && BookedIn(sheet, x, row, e, r'.entries[LastNameAt(sheet, x, row)], LastNameAt(sheet, x, row))
    decreases RowBound(sheet.Keys) - y
  {
    var r', e := AddNames(sheet, x, y, r), NameRunEnd(sheet, x, y);
    if IsNameAt(sheet, x, y) {
      assert (x, y) in sheet.Keys;
      var r1 := AddPerson(r, sheet, x, y);
      var k := LastNameAt(sheet, x, y);
      AddPersonSpec(r, sheet, x, y);
      AddNamesBookmarks(sheet, x, y + 1, r1);
      AddNamesOrigin(sheet, x, y + 1, r1);
      AddNamesKeep(sheet, x, y + 1, r1);
      NameStep(sheet, x, y, r);
      forall row | y <= row < e && IsNameAt(sheet, x, row)
        ensures LastNameAt(sheet, x, row) in r'.entries
        ensures BookedIn(sheet, x, row, e, r'.entries[LastNameAt(sheet, x, row)], LastNameAt(sheet, x, row))
      {
        if row == y {
          assert k in r'.entries;
          if r'.entries[k] == r1.entries[k] {
            assert RowOf(r1.entries[k]) == y;
          } else {
            assert BookedIn(sheet, x, y + 1, e, r'.entries[k], k);
          }
        }
      }
    }
  }

  /**
   * A new person takes its first name from the first row of the run with
   * its last name: later rows with that name only move the bookmark.
   */
  lemma {:induction false} AddNamesFirstName(sheet: Sheet, x: nat, y: nat, r: Roster, row: nat)
    requires y <= row < NameRunEnd(sheet, x, y) && IsNameAt(sheet, x, row)
    requires LastNameAt(sheet, x, row) !in r.entries
    requires forall row0 :: y <= row0 < row && IsNameAt(sheet, x, row0) ==> LastNameAt(sheet, x, row0) != LastNameAt(sheet, x, row)
    ensures var r' := AddNames(sheet, x, y, r);
      LastNameAt(sheet, x, row) in r'.entries && r'.entries[LastNameAt(sheet, x, row)].firstName == FirstNameAt(sheet, x, row)
    decreases RowBound(sheet.Keys) - y
  {
    assert IsNameAt(sheet, x, y);
    assert (x, y) in sheet.Keys;
    var r1 := AddPerson(r, sheet, x, y);
    AddPersonSpec(r, sheet, x, y);
    NameStep(sheet, x, y, r);
    if row == y {
      AddNamesKeep(sheet, x, y + 1, r1);
    } else {
      assert LastNameAt(sheet, x, y) != LastNameAt(sheet, x, row);
      AddNamesFirstName(sheet, x, y + 1, r1, row);
    }
  }

  /** Some integer cell lies in row `y` at or right of column `x`. */
  ghost predicate HasIntegerColumn(sheet: Sheet, x: nat, y: nat) {
    exists c: nat :: x <= c && IsIntegerAt(sheet, c, y)
  }

  /** Where the first-day loop stops: the first integer column at or right of `x`. */
  function FirstIntegerColumn(sheet: Sheet, x: nat, y: nat): (c: nat)
    requires HasIntegerColumn(sheet, x, y)
    ensures x <= c && IsIntegerAt(sheet, c, y)
    ensures forall k :: x <= k < c ==> !IsIntegerAt(sheet, k, y)
    decreases ColBound(sheet.Keys) - x
  {
    IntegerColumnAhead(sheet, x, y);
    if IsIntegerAt(sheet, x, y) then x else FirstIntegerColumn(sheet, x + 1, y)
  }

  lemma IntegerColumnAhead(sheet: Sheet, x: nat, y: nat)
    requires HasIntegerColumn(sheet, x, y)
    ensures x < ColBound(sheet.Keys)
    ensures !IsIntegerAt(sheet, x, y) ==> HasIntegerColumn(sheet, x + 1, y)
  {
    var w :| x <= w && IsIntegerAt(sheet, w, y);
    assert (w, y) in sheet.Keys;
    if !IsIntegerAt(sheet, x, y) {
      assert x + 1 <= w;
    }
  }

  /** Where the skip loop stops: the first integer column at or right of `c`, or the limit. */
  function NextDayColumn(sheet: Sheet, c: nat, y: nat): (c': nat)
    ensures c <= c' && (IsIntegerAt(sheet, c', y) || ColumnLimit <= c')
    ensures c < ColumnLimit ==> c' <= ColumnLimit
    ensures ColumnLimit <= c ==> c' == c
    ensures forall k :: c <= k < c' ==> !IsIntegerAt(sheet, k, y)
    decreases ColumnLimit - c
  {
    if ColumnLimit <= c || IsIntegerAt(sheet, c, y) then c else NextDayColumn(sheet, c + 1, y)
  }

  /** The columns the day loop visits when it starts at column `c` of the header row `y`. */
  function DayColumns(sheet: Sheet, c: nat, y: nat): (cols: seq<nat>)
    ensures forall i :: 0 <= i < |cols| ==> IsIntegerAt(sheet, cols[i], y)
    decreases ColBound(sheet.Keys) - c
  {
    if !IsIntegerAt(sheet, c, y) then [] else
      assert (c, y) in sheet.Keys;
      [c] + DayColumns(sheet, NextDayColumn(sheet, c + 1, y), y)
  }

  /** Visiting the integer column `x` moves it from the columns ahead to the visited ones. */
  lemma VisitColumn(sheet: Sheet, cols: seq<nat>, done: seq<nat>, x: nat, next: nat, y: nat)
    requires IsIntegerAt(sheet, x, y) && cols == done + DayColumns(sheet, x, y)
    requires next == NextDayColumn(sheet, x + 1, y)
    requires forall k :: 0 <= k < |done| ==> IsIntegerAt(sheet, done[k], y)
    ensures cols == (done + [x]) + DayColumns(sheet, next, y)
    ensures forall k :: 0 <= k < |done + [x]| ==> IsIntegerAt(sheet, (done + [x])[k], y)
  {
    DayColumnStep(sheet, x, y);
  }

  lemma DayColumnStep(sheet: Sheet, c: nat, y: nat)
    ensures DayColumns(sheet, c, y) ==
      if IsIntegerAt(sheet, c, y) then [c] + DayColumns(sheet, NextDayColumn(sheet, c + 1, y), y) else []
  {
  }

  /** The day loop visits columns from left to right, starting at `c`. */
  lemma {:induction false} DayColumnsOrdered(sheet: Sheet, c: nat, y: nat)
    ensures var cols := DayColumns(sheet, c, y);
      (IsIntegerAt(sheet, c, y) ==> |cols| > 0 && cols[0] == c)
      && (forall i :: 0 <= i < |cols| ==> c <= cols[i])
      && (forall i :: 0 <= i < |cols| - 1 ==> cols[i] < cols[i + 1])
    decreases ColBound(sheet.Keys) - c
  {
    if IsIntegerAt(sheet, c, y) {
      assert (c, y) in sheet.Keys;
      var n := NextDayColumn(sheet, c + 1, y);
      DayColumnsOrdered(sheet, n, y);
      DayColumnStep(sheet, n, y);
    }
  }

  /**
   * From a day column `c`, the day loop visits every integer column of the
   * header row between `c` and `ColumnLimit`.
   */
  lemma {:induction false} DayColumnsComplete(sheet: Sheet, c: nat, y: nat, k: nat)
    requires IsIntegerAt(sheet, c, y) && c <= k <= ColumnLimit && IsIntegerAt(sheet, k, y)
    ensures k in DayColumns(sheet, c, y)
    decreases ColBound(sheet.Keys) - c
  {
    assert (c, y) in sheet.Keys;
    var n := NextDayColumn(sheet, c + 1, y);
    if k != c {
      assert n <= k;
      DayColumnsComplete(sheet, n, y, k);
    }
  }

  /** The day a person gets for the header column `c`. */
  function DayOf(sheet: Sheet, c: nat, h: nat, p: Person): Day
    requires IsIntegerAt(sheet, c, h) && DecodeCell(p.cell).Some?
  {
    Day(NumberAt(sheet, c, h), RawText(sheet, c, RowOf(p)))
  }

  /** The inner loop's step for the key `k`: that person gets the day of column `c`. */
  function AddDay(r: Roster, sheet: Sheet, c: nat, h: nat, k: string): Roster
    requires IsIntegerAt(sheet, c, h)
  {
    if k in r.entries && DecodeCell(r.entries[k].cell).Some? then
      var p := r.entries[k];
      Roster(r.keys, r.entries[k := p.(days := p.days + [DayOf(sheet, c, h, p)])])
    else r
  }

  /** The inner loop over the keys `ks`, in order. */
  function AddDays(r: Roster, sheet: Sheet, c: nat, h: nat, ks: seq<string>): Roster
    requires IsIntegerAt(sheet, c, h)
    decreases |ks|
  {
    if ks == [] then r else AddDay(AddDays(r, sheet, c, h, ks[..|ks| - 1]), sheet, c, h, ks[|ks| - 1])
  }

  /** One pass of the day loop: every listed person gets the day of column `c`. */
  function AppendColumn(r: Roster, sheet: Sheet, c: nat, h: nat): Roster
    requires IsIntegerAt(sheet, c, h)
  {
    AddDays(r, sheet, c, h, r.keys)
  }

  /** The inner loop keeps the keys, the persons and their bookmarks. */
  lemma {:induction false} AddDaysFrame(r: Roster, sheet: Sheet, c: nat, h: nat, ks: seq<string>)
    requires IsIntegerAt(sheet, c, h)
    ensures var r' := AddDays(r, sheet, c, h, ks);
      && r'.keys == r.keys && r'.entries.Keys == r.entries.Keys
      && forall k :: k in r.entries ==> r'.entries[k].cell == r.entries[k].cell && r'.entries[k].lastName == r.entries[k].lastName
    decreases |ks|
  {
    if ks != [] {
      AddDaysFrame(r, sheet, c, h, ks[..|ks| - 1]);
    }
  }

  /**
   * Over distinct listed keys, the inner loop has appended the day exactly
   * to the persons whose key it has passed.
   */
  lemma {:induction false} AddDaysPrefix(r: Roster, sheet: Sheet, c: nat, h: nat, n: nat)
    requires ValidRoster(r) && IsIntegerAt(sheet, c, h) && n <= |r.keys|
    ensures var r' := AddDays(r, sheet, c, h, r.keys[..n]);
      && r'.entries.Keys == r.entries.Keys
      && forall k :: k in r.entries ==> (DecodeCell(r.entries[k].cell).Some? &&
        r'.entries[k] == if k in r.keys[..n]
          then r.entries[k].(days := r.entries[k].days + [DayOf(sheet, c, h, r.entries[k])])
          else r.entries[k])
  {
    if n > 0 {
      AddDaysPrefix(r, sheet, c, h, n - 1);
      var mid := AddDays(r, sheet, c, h, r.keys[..n - 1]);
      assert r.keys[..n][..n - 1] == r.keys[..n - 1];
      AddDaysFrame(r, sheet, c, h, r.keys[..n - 1]);
      var key := r.keys[n - 1];
      assert AddDays(r, sheet, c, h, r.keys[..n]) == AddDay(mid, sheet, c, h, key);
      assert key !in r.keys[..n - 1];
      forall k | k in r.entries
        ensures k in r.keys[..n] <==> k in r.keys[..n - 1] || k == key
      {
        assert k in r.keys[..n] ==> k in r.keys[..n - 1] || k == key by {
          if k in r.keys[..n] {
            var i :| 0 <= i < n && r.keys[i] == k;
            if i < n - 1 {
              assert r.keys[..n - 1][i] == k;
            }
          }
        }
      }
    }
  }

  /** The day loop's step: every person of the record gets the day of column `c`, and nothing else changes. */
  lemma AppendColumnSpec(r: Roster, sheet: Sheet, c: nat, h: nat)
    requires ValidRoster(r) && IsIntegerAt(sheet, c, h)
    ensures var r' := AppendColumn(r, sheet, c, h);
      && ValidRoster(r') && r'.keys == r.keys && r'.entries.Keys == r.entries.Keys
      && forall k :: k in r.entries ==>
        r'.entries[k] == r.entries[k].(days := r.entries[k].days + [DayOf(sheet, c, h, r.entries[k])])
  {
    AddDaysPrefix(r, sheet, c, h, |r.keys|);
    assert r.keys[..|r.keys|] == r.keys;
    AddDaysFrame(r, sheet, c, h, r.keys);
  }

  /** The day loop over the columns `cols`. */
  function AppendDays(r: Roster, sheet: Sheet, cols: seq<nat>, h: nat): Roster
    requires forall i :: 0 <= i < |cols| ==> IsIntegerAt(sheet, cols[i], h)
    decreases |cols|
  {
    if cols == [] then r else
      AppendColumn(AppendDays(r, sheet, cols[..|cols| - 1], h), sheet, cols[|cols| - 1], h)
  }

  lemma AppendDaysStep(r: Roster, sheet: Sheet, cols: seq<nat>, c: nat, h: nat)
    requires IsIntegerAt(sheet, c, h)
    requires forall i :: 0 <= i < |cols| ==> IsIntegerAt(sheet, cols[i], h)
    ensures AppendDays(r, sheet, cols + [c], h) == AppendColumn(AppendDays(r, sheet, cols, h), sheet, c, h)
  {
    assert (cols + [c])[..|cols|] == cols;
  }

  /** What one bookmarked row holds under the header columns `cols`. */
  function DaysAt(sheet: Sheet, cols: seq<nat>, h: nat, row: nat): (days: seq<Day>)
    requires forall i :: 0 <= i < |cols| ==> IsIntegerAt(sheet, cols[i], h)
    ensures |days| == |cols|
    ensures forall i :: 0 <= i < |cols| ==> days[i] == Day(NumberAt(sheet, cols[i], h), RawText(sheet, cols[i], row))
    decreases |cols|
  {
    if cols == [] then [] else
      var c := cols[|cols| - 1];
      DaysAt(sheet, cols[..|cols| - 1], h, row) + [Day(NumberAt(sheet, c, h), RawText(sheet, c, row))]
  }

  /** A person's days after one more column, as `AppendDaysSpec` needs it. */
  lemma PersonDaysStep(p: Person, q: Person, sheet: Sheet, cols: seq<nat>, h: nat)
    requires cols != [] && forall i :: 0 <= i < |cols| ==> IsIntegerAt(sheet, cols[i], h)
    requires DecodeCell(p.cell).Some?
    requires q == p.(days := p.days + DaysAt(sheet, cols[..|cols| - 1], h, RowOf(p)))
    ensures q.(days := q.days + [DayOf(sheet, cols[|cols| - 1], h, q)]) == p.(days := p.days + DaysAt(sheet, cols, h, RowOf(p)))
  {
    var init, c := cols[..|cols| - 1], cols[|cols| - 1];
    assert DaysAt(sheet, cols, h, RowOf(p)) == DaysAt(sheet, init, h, RowOf(p)) + [DayOf(sheet, c, h, p)];
    assert p.days + DaysAt(sheet, init, h, RowOf(p)) + [DayOf(sheet, c, h, p)] == p.days + DaysAt(sheet, cols, h, RowOf(p));
  }

  /**
   * After the day loop every person has, appended to the days it had, one
   * day per visited column: that column's day number and the text of the
   * person's bookmarked row in that column.  Keys, persons, names and
   * bookmarks are unchanged.
   */
  lemma {:induction false} AppendDaysSpec(r: Roster, sheet: Sheet, cols: seq<nat>, h: nat)
    requires ValidRoster(r) && forall i :: 0 <= i < |cols| ==> IsIntegerAt(sheet, cols[i], h)
    ensures var r' := AppendDays(r, sheet, cols, h);
      && ValidRoster(r') && r'.keys == r.keys && r'.entries.Keys == r.entries.Keys
      && forall k :: k in r.entries ==>
        r'.entries[k] == r.entries[k].(days := r.entries[k].days + DaysAt(sheet, cols, h, RowOf(r.entries[k])))
    decreases |cols|
  {
    if cols == [] {
      forall k | k in r.entries
        ensures r.entries[k].days + DaysAt(sheet, cols, h, RowOf(r.entries[k])) == r.entries[k].days
      {
      }
    } else {
      var init, c := cols[..|cols| - 1], cols[|cols| - 1];
      AppendDaysSpec(r, sheet, init, h);
      var mid := AppendDays(r, sheet, init, h);
      AppendColumnSpec(mid, sheet, c, h);
      forall k | k in r.entries
        ensures AppendDays(r, sheet, cols, h).entries[k]
          == r.entries[k].(days := r.entries[k].days + DaysAt(sheet, cols, h, RowOf(r.entries[k])))
      {
        PersonDaysStep(r.entries[k], mid.entries[k], sheet, cols, h);
      }
    }
  }

  /** Where the header search stops. */
  function HeaderRow(sheet: Sheet, x: nat, y: nat): nat {
    ScanDown(HeaderProbe(sheet, x), y, HeaderBudget)
  }

  /** Where the first-name search below the header row `h` stops. */
  function FirstNameRow(sheet: Sheet, x: nat, h: nat): nat {
    ScanDown(NameProbe(sheet, x), h + 1, NameBudget)
  }

  /**
   * The header search passes only rows without the label and stops on the
   * first row with it, unless it gives up `HeaderBudget` rows down.
   */
  lemma HeaderRowSpec(sheet: Sheet, x: nat, y: nat)
    ensures var h := HeaderRow(sheet, x, y);
      && y <= h <= y + HeaderBudget
      && (forall k :: y <= k < h ==> !IsHeaderAt(sheet, x, k))
      && (h < y + HeaderBudget ==> IsHeaderAt(sheet, x, h))
  {
    var hit := HeaderProbe(sheet, x);
    ScanDownSpec(hit, y, HeaderBudget);
    var stop := HeaderRow(sheet, x, y);
    forall k | y <= k < stop
      ensures !IsHeaderAt(sheet, x, k)
    {
      assert !hit(k);
    }
    if stop < y + HeaderBudget {
      assert hit(stop);
    }
  }

  /** The same for the search of the first name row below the header row `h`. */
  lemma FirstNameRowSpec(sheet: Sheet, x: nat, h: nat)
    ensures var f := FirstNameRow(sheet, x, h);
      && h + 1 <= f <= h + 1 + NameBudget
      && (forall k :: h + 1 <= k < f ==> !IsNameAt(sheet, x, k))
      && (f < h + 1 + NameBudget ==> IsNameAt(sheet, x, f))
  {
    var hit := NameProbe(sheet, x);
    ScanDownSpec(hit, h + 1, NameBudget);
    var stop := FirstNameRow(sheet, x, h);
    forall k | h + 1 <= k < stop
      ensures !IsNameAt(sheet, x, k)
    {
      assert !hit(k);
    }
    if stop < h + 1 + NameBudget {
      assert hit(stop);
    }
  }

  /** Both bounded searches succeed from (x, y). */
  predicate Located(sheet: Sheet, x: nat, y: nat) {
    var h := HeaderRow(sheet, x, y);
    h - y < HeaderBudget && FirstNameRow(sheet, x, h) - (h + 1) < NameBudget
  }

  /**
   * The loop looking for the first day column (src/ingest.ts:289) only ends
   * when the header row has an integer cell to the right; without one the
   * source never returns.
   */
  ghost predicate DayPhaseTerminates(sheet: Sheet, x: nat, y: nat) {
    Located(sheet, x, y) ==> HasIntegerColumn(sheet, x, HeaderRow(sheet, x, y))
  }

  /** What a call leaves behind: error flag raised, caller's row, person record, log lines. */
  datatype TableOutcome = TableOutcome(failed: bool, cursorY: nat, roster: Roster, log: seq<Entry>)

  /** The outcome `o` with the line `e` logged before its own lines. */
  function Logged(e: Entry, o: TableOutcome): TableOutcome {
    o.(log := [e] + o.log)
  }

  /** `findAndParseTable(cellPointer, persons)` started at (x, y). */
  function ParseTable(sheet: Sheet, x: nat, y: nat, r: Roster): (o: TableOutcome)
    requires DayPhaseTerminates(sheet, x, y)
  {
    var h := HeaderRow(sheet, x, y);
    Logged(LookingForTable(EncodeCell(x, y)),
      if h - y >= HeaderBudget then TableOutcome(true, h, r, [CouldNotFindTable])
      else ParseBelowHeader(sheet, x, h, r))
  }

  /** The rest of the call once the header label is found in row `h`. */
  function ParseBelowHeader(sheet: Sheet, x: nat, h: nat, r: Roster): (o: TableOutcome)
    requires FirstNameRow(sheet, x, h) - (h + 1) < NameBudget ==> HasIntegerColumn(sheet, x, h)
  {
    var f := FirstNameRow(sheet, x, h);
    Logged(FoundTable(EncodeCell(x, h)),
      if f - (h + 1) >= NameBudget then TableOutcome(true, f, r, [CouldNotFindNames])
      else ParseRows(sheet, x, h, f, r))
  }

  /** The rest of the call once the first name is found in row `f`: the names, then the days. */
  function ParseRows(sheet: Sheet, x: nat, h: nat, f: nat, r: Roster): (o: TableOutcome)
    requires HasIntegerColumn(sheet, x, h)
  {
    var named := AddNames(sheet, x, f, r);
    var c0 := FirstIntegerColumn(sheet, x, h);
    var cols := DayColumns(sheet, c0, h);
    TableOutcome(false, NameRunEnd(sheet, x, f), AppendDays(named, sheet, cols, h),
      [FoundPersons(|named.keys|), LookingForFirstDay(EncodeCell(x, h)), FoundFirstDay(EncodeCell(c0, h)),
       ProcessedDays(|cols|, |cols| * |named.keys|)])
  }

  /**
   * The call fails, raising the error flag and leaving the person record
   * alone, exactly when one of the two bounded searches gives up; it always
   * logs first where it starts looking.
   */
  lemma ParseTableFails(sheet: Sheet, x: nat, y: nat, r: Roster)
    requires DayPhaseTerminates(sheet, x, y)
    ensures var o := ParseTable(sheet, x, y, r);
      && (o.failed <==> !Located(sheet, x, y))
      && (o.failed ==> o.roster == r)
      && |o.log| >= 2 && o.log[0] == LookingForTable(EncodeCell(x, y))
  {
  }

  /** A table read from a valid person record leaves a valid one. */
  lemma ParseTableValid(sheet: Sheet, x: nat, y: nat, r: Roster)
    requires ValidRoster(r) && DayPhaseTerminates(sheet, x, y)
    ensures ValidRoster(ParseTable(sheet, x, y, r).roster)
  {
    if Located(sheet, x, y) {
      var h := HeaderRow(sheet, x, y);
      var f := FirstNameRow(sheet, x, h);
      AddNamesValid(sheet, x, f, r);
      AppendDaysSpec(AddNames(sheet, x, f, r), sheet, DayColumns(sheet, FirstIntegerColumn(sheet, x, h), h), h);
    }
  }

  /** The header search of `findAndParseTable`: move down until the header label, at most `HeaderBudget` rows. */
  method SeekHeader(cursor: CellPointer)
    modifies cursor
    ensures cursor.x == old(cursor.x) && cursor.y == HeaderRow(cursor.sheet, cursor.x, old(cursor.y))
  {
    cursor.SeekDown(HeaderProbe(cursor.sheet, cursor.x), HeaderBudget);
  }

  /** The first-name search: move down until a row with a comma, at most `NameBudget` rows. */
  method SeekFirstName(cursor: CellPointer)
    modifies cursor
    ensures cursor.x == old(cursor.x) && cursor.y == ScanDown(NameProbe(cursor.sheet, cursor.x), old(cursor.y), NameBudget)
  {
    cursor.SeekDown(NameProbe(cursor.sheet, cursor.x), NameBudget);
  }

  /**
   * The name loop: one person per consecutive comma row, keyed by last name;
   * a repeated last name only moves that person's bookmark.
   */
  method ReadNames(cursor: CellPointer, persons: Roster) returns (result: Roster)
    requires Filed(persons)
    modifies cursor
    ensures var e := NameRunEnd(cursor.sheet, cursor.x, old(cursor.y));
      && cursor.x == old(cursor.x) && cursor.y == e
      && result == AddNames(cursor.sheet, cursor.x, old(cursor.y), persons)
  {
    ghost var sheet, x, f := cursor.sheet, cursor.x, cursor.y;
    ghost var e := NameRunEnd(sheet, x, f);
    ghost var target := AddNames(sheet, x, f, persons);
    result := persons;
    while IsNameAt(cursor.sheet, cursor.x, cursor.y)
      invariant cursor.x == x && f <= cursor.y <= e
      invariant NameRunEnd(sheet, x, cursor.y) == e
      invariant Filed(result)
      invariant AddNames(sheet, x, cursor.y, result) == target
      decreases e - cursor.y
    {
      result := NextName(cursor, result, sheet, x);
      cursor.y := cursor.y + 1;
    }
  }

  /** `ReadName` seen from the name loop: one row of the run is consumed. */
  method NextName(cursor: CellPointer, persons: Roster, ghost sheet: Sheet, ghost x: nat)
    returns (result: Roster)
    requires cursor.sheet == sheet && cursor.x == x
    requires Filed(persons) && IsNameAt(sheet, x, cursor.y)
    ensures Filed(result)
    ensures AddNames(sheet, x, cursor.y + 1, result) == AddNames(sheet, x, cursor.y, persons)
    ensures NameRunEnd(sheet, x, cursor.y + 1) == NameRunEnd(sheet, x, cursor.y)
  {
    NameStep(sheet, x, cursor.y, persons);
    AddPersonFiled(persons, sheet, x, cursor.y);
    result := ReadName(cursor, persons, sheet, x, cursor.y);
  }

  /** One pass of the name loop on the comma row under the cursor. */
  method ReadName(cursor: CellPointer, persons: Roster, ghost sheet: Sheet, ghost x: nat, ghost y: nat)
    returns (result: Roster)
    requires cursor.sheet == sheet && cursor.x == x && cursor.y == y
    requires Filed(persons) && IsNameAt(sheet, x, y)
    ensures result == AddPerson(persons, sheet, x, y)
  {
    var name := cursor.GetRawString();
    NameComma(sheet, x, y);
    var person := Person(Trim(SplitField(name, ',', 1)), Trim(SplitField(name, ',', 0)), cursor.ToString(), []);
    if person.lastName in persons.entries {
      person := persons.entries[person.lastName];
      result := persons.(entries := persons.entries[person.lastName := person.(cell := cursor.ToString())]);
    } else {
      result := persons.(keys := persons.keys + [person.lastName], entries := persons.entries[person.lastName := person]);
    }
  }

  /** The first-day loop: move right until an integer cell. */
  method SeekFirstDay(cursor: CellPointer)
    requires HasIntegerColumn(cursor.sheet, cursor.x, cursor.y)
    modifies cursor
    ensures cursor.y == old(cursor.y) && cursor.x == FirstIntegerColumn(cursor.sheet, old(cursor.x), cursor.y)
  {
    ghost var c0 := FirstIntegerColumn(cursor.sheet, cursor.x, cursor.y);
    while !cursor.IsInteger()
      invariant cursor.y == old(cursor.y) && old(cursor.x) <= cursor.x <= c0
      invariant HasIntegerColumn(cursor.sheet, cursor.x, cursor.y) && FirstIntegerColumn(cursor.sheet, cursor.x, cursor.y) == c0
      decreases c0 - cursor.x
    {
      cursor.x := cursor.x + 1;
    }
  }

  /** One column of the day loop: append the day under the cursor to every person, in key order. */
  method ReadColumn(cursor: CellPointer, persons: Roster, ghost sheet: Sheet, ghost x: nat, ghost h: nat)
    returns (result: Roster, count: nat)
    requires cursor.sheet == sheet && cursor.x == x && cursor.y == h
    requires Bookmarked(persons) && IsIntegerAt(sheet, x, h)
    ensures result == AppendColumn(persons, sheet, x, h)
    ensures count == |persons.keys|
  {
    result := persons;
    count := 0;
    while count < |result.keys|
      invariant cursor.x == x && cursor.y == h
      invariant count <= |persons.keys| && result.keys == persons.keys
      invariant result == AddDays(persons, sheet, x, h, persons.keys[..count])
    {
      var k := result.keys[count];
      AddDaysFrame(persons, sheet, x, h, persons.keys[..count]);
      assert persons.keys[..count + 1][..count] == persons.keys[..count];
      ghost var before := result;
      var personCell := CellPointer.FromString(cursor.sheet, result.entries[k].cell);
      personCell.x := cursor.x;
      var day := Day(cursor.GetNumber(), personCell.GetRawString());
      result := result.(entries := result.entries[k := result.entries[k].(days := result.entries[k].days + [day])]);
      assert result == AddDay(before, sheet, x, h, k);
      count := count + 1;
    }
    assert persons.keys[..count] == persons.keys;
  }

  /**
   * The day loop: from the first day column, every integer column of the
   * header row up to the next non-integer column at or past `ColumnLimit`.
   * `i` counts columns and `j` appended days.
   */
  method ReadDays(cursor: CellPointer, persons: Roster) returns (result: Roster, i: nat, j: int)
    requires ValidRoster(persons)
    modifies cursor
    ensures var cols := DayColumns(cursor.sheet, old(cursor.x), cursor.y);
      && cursor.y == old(cursor.y)
      && result == AppendDays(persons, cursor.sheet, cols, cursor.y)
      && i == |cols| && j == |cols| * |persons.keys|
  {
    ghost var sheet, c0, h := cursor.sheet, cursor.x, cursor.y;
    ghost var cols := DayColumns(sheet, c0, h);
    ghost var done: seq<nat> := [];
    ghost var size := |persons.keys|;
    result := persons;
    j := 0;
    i := 0;
    while cursor.IsInteger()
      invariant cursor.y == h && cursor.sheet == sheet
      invariant forall k :: 0 <= k < |done| ==> IsIntegerAt(sheet, done[k], h)
      invariant cols == done + DayColumns(sheet, cursor.x, h)
      invariant result == AppendDays(persons, sheet, done, h)
      invariant ValidRoster(result) && |result.keys| == size
      invariant i == |done| && j == i * size
      decreases ColBound(sheet.Keys) - cursor.x
    {
      ghost var x := cursor.x;
      assert (x, h) in sheet.Keys;
      ProductStep(i, size);
      var n;
      result, n := NextColumn(cursor, result, sheet, h, persons, done);
      i := i + 1;
      j := j + n;
      cursor.x := cursor.x + 1;
      SkipToNextDay(cursor);
      VisitColumn(sheet, cols, done, x, cursor.x, h);
      done := done + [x];
    }
    DayColumnStep(sheet, cursor.x, h);
    assert done + [] == done;
  }

  /** `ReadColumn` seen from the day loop: the column under the cursor joins the visited ones. */
  method NextColumn(cursor: CellPointer, r: Roster, ghost sheet: Sheet, ghost h: nat, ghost persons: Roster, ghost done: seq<nat>)
    returns (result: Roster, count: nat)
    requires cursor.sheet == sheet && cursor.y == h && IsIntegerAt(sheet, cursor.x, h)
    requires forall k :: 0 <= k < |done| ==> IsIntegerAt(sheet, done[k], h)
    requires r == AppendDays(persons, sheet, done, h) && ValidRoster(r)
    ensures result == AppendDays(persons, sheet, done + [cursor.x], h)
    ensures ValidRoster(result) && |result.keys| == |r.keys| && count == |r.keys|
  {
    AppendDaysStep(persons, sheet, done, cursor.x, h);
    AppendColumnSpec(r, sheet, cursor.x, h);
    result, count := ReadColumn(cursor, r, sheet, cursor.x, h);
  }

  /** The skip loop between two day columns: move right to the next integer cell, or to the limit. */
  method SkipToNextDay(cursor: CellPointer)
    modifies cursor
    ensures cursor.y == old(cursor.y) && cursor.x == NextDayColumn(cursor.sheet, old(cursor.x), cursor.y)
  {
    ghost var next := NextDayColumn(cursor.sheet, cursor.x, cursor.y);
    while !cursor.IsInteger() && cursor.x < ColumnLimit
      invariant cursor.y == old(cursor.y)
      invariant cursor.x <= next && NextDayColumn(cursor.sheet, cursor.x, cursor.y) == next
      decreases ColumnLimit - cursor.x
    {
      cursor.x := cursor.x + 1;
    }
  }

  lemma ProductStep(i: nat, k: nat)
    ensures (i + 1) * k == i * k + k
  {
  }

  /**
   * `findAndParseTable(cellPointer, persons)`: the caller's pointer ends on
   * the first row after the names (or where a search gave up), its column
   * unchanged; the day scan runs on a clone of the header cell.
   */
  method FindAndParseTable(cursor: CellPointer, run: Run, persons: Roster) returns (result: Roster)
    requires ValidRoster(persons) && DayPhaseTerminates(cursor.sheet, cursor.x, cursor.y)
    modifies cursor, run
    ensures var o := ParseTable(cursor.sheet, old(cursor.x), old(cursor.y), persons);
      && result == o.roster
      && cursor.x == old(cursor.x) && cursor.y == o.cursorY
      && run.log == old(run.log) + o.log
      && run.error == (old(run.error) || o.failed)
  {
    ghost var sheet, x, y, log0 := cursor.sheet, cursor.x, cursor.y, run.log;
    run.Log(LookingForTable(cursor.ToString()));
    var initialY := cursor.y;
    SeekHeader(cursor);
    if cursor.y - initialY >= HeaderBudget {
      run.Log(CouldNotFindTable);
      run.error := true;
      return persons;
    }
    ghost var h := cursor.y;
    assert h == HeaderRow(sheet, x, y);
    result := ReadBelowHeader(cursor, run, persons, sheet, x);
    Concat(log0, [LookingForTable(EncodeCell(x, y))], ParseBelowHeader(sheet, x, h, persons).log);
  }

  /** `findAndParseTable` from the header row on: look for the first name, then read the table. */
  method ReadBelowHeader(cursor: CellPointer, run: Run, persons: Roster, ghost sheet: Sheet, ghost x: nat)
    returns (result: Roster)
    requires cursor.sheet == sheet && cursor.x == x && ValidRoster(persons)
    requires FirstNameRow(sheet, x, cursor.y) - (cursor.y + 1) < NameBudget ==> HasIntegerColumn(sheet, x, cursor.y)
    modifies cursor, run
    ensures var o := ParseBelowHeader(sheet, x, old(cursor.y), persons);
      && result == o.roster
      && cursor.x == x && cursor.y == o.cursorY
      && run.log == old(run.log) + o.log
      && run.error == (old(run.error) || o.failed)
  {
    ghost var h, log0 := cursor.y, run.log;
    var startCell := cursor.Clone();
    var headerAt := startCell.ToString();
    run.Log(FoundTable(headerAt));
    cursor.y := cursor.y + 1;
    var initialY := cursor.y;
    SeekFirstName(cursor);
    ghost var f := cursor.y;
    assert f == FirstNameRow(sheet, x, h);
    if cursor.y - initialY >= NameBudget {
      run.Log(CouldNotFindNames);
      run.error := true;
      return persons;
    }
    result := ReadTable(cursor, startCell, run, persons, sheet, x, h, headerAt);
    assert result == ParseRows(sheet, x, h, f, persons).roster;
    Concat(log0, [FoundTable(EncodeCell(x, h))], ParseRows(sheet, x, h, f, persons).log);
  }

  /** The part of `findAndParseTable` after the first name row is found: names, then days. */
  method ReadTable(cursor: CellPointer, startCell: CellPointer, run: Run, persons: Roster,
                   ghost sheet: Sheet, ghost x: nat, ghost h: nat, headerAt: string)
    returns (result: Roster)
    requires cursor != startCell && ValidRoster(persons)
    requires cursor.sheet == sheet && cursor.x == x && startCell.sheet == sheet && startCell.x == x && startCell.y == h
    requires headerAt == EncodeCell(x, h) && HasIntegerColumn(sheet, x, h)
    modifies cursor, startCell, run
    ensures var o := ParseRows(sheet, x, h, old(cursor.y), persons);
      && result == o.roster
      && cursor.x == x && cursor.y == o.cursorY
      && run.log == old(run.log) + o.log
      && run.error == old(run.error)
  {
    ghost var f := cursor.y;
    result := ReadNames(cursor, persons);
    AddNamesValid(sheet, x, f, persons);
    run.Log(FoundPersons(|result.keys|));

    // find the first day, on the clone of the header cell
    run.Log(LookingForFirstDay(headerAt));
    SeekFirstDay(startCell);
    run.Log(FoundFirstDay(startCell.ToString()));
    var i, j;
    result, i, j := ReadDays(startCell, result);
    run.Log(ProcessedDays(i, j));
  }
}
