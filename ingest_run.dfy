/**
 * The `ingest` entry point of src/ingest.ts: reset the log, read the month
 * from the file name, read the two roster tables one after the other from
 * a pointer at the top left cell, and write the persons to the database
 * only if neither table failed.
 */
module IngestFlow {
  import opened Wrappers
  import opened Grid
  import opened RunLog
  import opened IngestDuty
  import opened IngestTable
  import opened FileDate
  import opened Reconcile

  /** Both table reads return: the first from the top left cell, the second from where the first left the pointer. */
  ghost predicate IngestTerminates(sheet: Sheet) {
    && DayPhaseTerminates(sheet, 0, 0)
    && var first := ParseTable(sheet, 0, 0, EmptyRoster);
       !first.failed ==> DayPhaseTerminates(sheet, 0, first.cursorY)
  }

  /** The empty person record is valid. */
  lemma EmptyRosterValid()
    ensures ValidRoster(EmptyRoster)
  {
    assert EmptyRoster.keys == [];
  }

  /**
   * `table 1`, then `table 2` only when the first raised no error: whether
   * one failed, the person record after them and their lines.
   */
  ghost function ReadTables(sheet: Sheet): (o: TableOutcome)
    requires IngestTerminates(sheet)
    ensures ValidRoster(o.roster)
  {
    var first := ParseTable(sheet, 0, 0, EmptyRoster);
    EmptyRosterValid();
    ParseTableValid(sheet, 0, 0, EmptyRoster);
    if first.failed then first
    else
      var second := ParseTable(sheet, 0, first.cursorY, first.roster);
      ParseTableValid(sheet, 0, first.cursorY, first.roster);
      TableOutcome(second.failed, second.cursorY, second.roster, first.log + second.log)
  }

  /**
   * The database after `ingest(fileName)` and its log; `None` when the
   * name is not a month file and `ingest` throws before reading anything.
   */
  ghost function IngestOutcome(fileName: string, currentYear: nat, sheet: Sheet, duties: Duties, db: Db): Option<Turn>
    requires IngestTerminates(sheet)
  {
    match ParseFileName(fileName, currentYear)
    case None => None
    case Some((y, m)) =>
      var tables := ReadTables(sheet);
      var head := [Ingesting(fileName), AssumedDate(y, m)] + tables.log;
      if tables.failed then Some(Turn(db, head))
      else
        var t := InsertAll(db, Listing(tables.roster), SpanOf(y, m), duties);
        Some(Turn(t.db, head + [InsertingPersons] + t.log))
  }

  /**
   * The gating of `ingest`: a run whose tables fail leaves the database as
   * it was; a successful run reads the second table from where the first
   * ended, and afterwards every person of the record has a database person
   * of that last name.
   */
  lemma IngestOutcomeSpec(fileName: string, currentYear: nat, sheet: Sheet, duties: Duties, db: Db)
    requires IngestTerminates(sheet) && Numbered(db.people)
    ensures var out := IngestOutcome(fileName, currentYear, sheet, duties, db);
      && (out.Some? <==> ParseFileName(fileName, currentYear).Some?)
      && (out.Some? && ReadTables(sheet).failed ==> out.value.db == db)
      && (out.Some? && !ReadTables(sheet).failed ==>
            var first := ParseTable(sheet, 0, 0, EmptyRoster);
            && !first.failed
            && ReadTables(sheet).roster == ParseTable(sheet, 0, first.cursorY, first.roster).roster
            && Numbered(out.value.db.people)
            && forall k :: k in ReadTables(sheet).roster.entries ==>
                 FindByLastName(out.value.db.people, k).Some?)
  {
    var out := IngestOutcome(fileName, currentYear, sheet, duties, db);
    if out.Some? && !ReadTables(sheet).failed {
      var (y, m) := ParseFileName(fileName, currentYear).value;
      var r := ReadTables(sheet).roster;
      var ps := Listing(r);
      InsertAllFinds(db, ps, SpanOf(y, m), duties);
      InsertAllPeople(db, ps, SpanOf(y, m), duties);
      forall k | k in r.entries
        ensures FindByLastName(out.value.db.people, k).Some?
      {
        var i :| 0 <= i < |r.keys| && r.keys[i] == k;
        assert ps[i].lastName == k;
      }
    }
  }
}

/** The imperative side of `ingest` and `insertDatabase`. */
module IngestRun {
  import opened Wrappers
  import opened Strings
  import opened Calendar
  import opened Grid
  import opened RunLog
  import opened IngestDuty
  import opened IngestTable
  import opened FileDate
  import opened Reconcile
  import opened IngestFlow

  /** The database behind the `prisma` client, with the queries the ingestion makes. */
  class Store {
    var people: seq<DbPerson>
    var rows: seq<DutyRow>

    ghost predicate Valid()
      reads this
    {
      Numbered(people)
    }

    function State(): Db
      reads this
    {
      Db(people, rows)
    }

    constructor (db: Db)
      requires Numbered(db.people)
      ensures State() == db && Valid()
    {
      people := db.people;
      rows := db.rows;
    }

    /** `person.findFirst({ where: { lastName } })` */
    method FindFirst(lastName: string) returns (r: Option<DbPerson>)
      ensures r.Some? <==> FindByLastName(people, lastName).Some?
      ensures r.Some? ==> r.value == people[FindByLastName(people, lastName).value]
    {
      var i := FindByLastName(people, lastName);
      if i.Some? {
        r := Some(people[i.value]);
      } else {
        r := None;
      }
    }

    /** `person.create({ data: { firstName, lastName } })`: the new person gets the next id. */
    method Create(firstName: string, lastName: string) returns (q: DbPerson)
      requires Valid()
      modifies this
      ensures q == DbPerson(|old(people)|, firstName, lastName)
      ensures people == old(people) + [q] && rows == old(rows) && Valid()
    {
      q := DbPerson(|people|, firstName, lastName);
      people := people + [q];
    }

    /** `dienstplan.count` of the rows of person `id` starting within the window `w`. */
    method Count(id: nat, w: (int, int)) returns (n: nat)
      ensures n == CountIn(rows, id, w)
    {
      n := CountIn(rows, id, w);
    }

    /** `dienstplan.deleteMany` of the rows of person `id` starting within the window `w`. */
    method DeleteMany(id: nat, w: (int, int))
      modifies this
      ensures rows == Keep(old(rows), id, w) && people == old(people)
    {
      rows := Keep(rows, id, w);
    }

    /** `dienstplan.create({ data: row })` */
    method CreateRow(row: DutyRow)
      modifies this
      ensures rows == old(rows) + [row] && people == old(people)
    {
      rows := rows + [row];
    }
  }

  /** Find the database person with the last name of `p`, or create and report one. */
  method FindOrCreate(store: Store, run: Run, p: Person) returns (q: DbPerson)
    requires store.Valid()
    modifies store, run
    ensures var l := Resolve(old(store.people), p);
      && q == l.person && store.people == l.people && store.rows == old(store.rows)
      && run.log == old(run.log) + l.lines && run.error == old(run.error)
    ensures store.Valid()
  {
    var found := store.FindFirst(p.lastName);
    if found.None? {
      q := store.Create(p.firstName, p.lastName);
      run.Log(CreatedPerson(q.firstName, q.lastName));
    } else {
      q := found.value;
    }
  }

  /** Delete, after a warning, the rows person `q` already has in the window `w`. */
  method ClearMonth(store: Store, run: Run, q: DbPerson, w: (int, int))
    modifies store, run
    ensures store.rows == Keep(old(store.rows), q.id, w) && store.people == old(store.people)
    ensures run.log == old(run.log) + ClearLine(old(store.rows), q, w) && run.error == old(run.error)
  {
    var n := store.Count(q.id, w);
    if n > 0 {
      run.Log(AlreadyHasDuties(q.firstName, q.lastName));
      store.DeleteMany(q.id, w);
    } else {
      KeepSpec(store.rows, q.id, w);
      KeepNothing(store.rows, q.id, w);
    }
  }

  /** One turn of `for (const day of person.days)`: skip, report a missing duty, or insert the shift. */
  method BookDay(store: Store, run: Run, q: DbPerson, day: Day, s: Span, duties: Duties) returns (booked: bool)
    modifies store, run
    ensures store.rows == old(store.rows) + BookedRow(q.id, day, s, duties) && store.people == old(store.people)
    ensures run.log == old(run.log) + LineOf(day, s, duties) && run.error == old(run.error)
    ensures booked <==> BookedRow(q.id, day, s, duties) != []
  {
    if IsSkipped(day.schedule) {
      return false;
    }
    var dutyName := day.schedule;
    if StartsWith(dutyName, "1CT") || StartsWith(dutyName, "TD1C") {
      dutyName := "1CT";
    }
    if StartsWith(dutyName, "ZNAT") {
      dutyName := "ZNATW";
    }
    if dutyName !in duties {
      run.Log(DutyNotFound(day.schedule));
      return false;
    }
    var duty := duties[dutyName];
    var midnight := DayNumber(s, day.day) * MinutesPerDay;
    var startsAt := midnight + duty.startH * 60 + duty.startM;
    var endsAt := midnight + duty.endH * 60 + duty.endM;
    if startsAt > endsAt {
      endsAt := endsAt + MinutesPerDay;
    }
    store.CreateRow(DutyRow(q.id, duty.id, startsAt, endsAt));
    booked := true;
  }

  /** The day loop of one person: insert the shifts, report the missing duties, count the inserts. */
  method BookDays(store: Store, run: Run, q: DbPerson, days: seq<Day>, s: Span, duties: Duties) returns (i: nat)
    modifies store, run
    ensures store.rows == old(store.rows) + BookedRows(q.id, days, s, duties) && store.people == old(store.people)
    ensures run.log == old(run.log) + MissingLines(days, s, duties) && run.error == old(run.error)
    ensures i == |BookedRows(q.id, days, s, duties)|
  {
    i := 0;
    var k := 0;
    while k < |days|
      invariant 0 <= k <= |days|
      invariant store.rows == old(store.rows) + BookedRows(q.id, days[..k], s, duties)
      invariant store.people == old(store.people)
      invariant run.log == old(run.log) + MissingLines(days[..k], s, duties)
      invariant run.error == old(run.error)
      invariant i == |BookedRows(q.id, days[..k], s, duties)|
    {
      assert days[..k + 1][..k] == days[..k];
      assert days[..k + 1][k] == days[k];
      var booked := BookDay(store, run, q, days[k], s, duties);
      if booked {
        i := i + 1;
      }
      k := k + 1;
    }
    assert days[..k] == days;
  }

  /** One turn of `for (const k in persons)`: the person, the cleared month, the days, the count line. */
  method InsertPerson(store: Store, run: Run, p: Person, s: Span, duties: Duties)
    requires store.Valid()
    modifies store, run
    ensures store.Valid()
    ensures var t := PersonStep(old(store.State()), p, s, duties);
      store.State() == t.db && run.log == old(run.log) + t.log
    ensures run.error == old(run.error)
  {
    ghost var db0, log0 := store.State(), run.log;
    var q := FindOrCreate(store, run, p);
    ClearMonth(store, run, q, Window(s));
    var i := BookDays(store, run, q, p.days, s, duties);
    run.Log(InsertedDuties(i, q.firstName, q.lastName));
    ghost var lines, clear := Resolve(db0.people, p).lines, ClearLine(db0.rows, q, Window(s));
    Concat(log0, lines, clear);
    Concat(log0, lines + clear, MissingLines(p.days, s, duties));
    Concat(log0, lines + clear + MissingLines(p.days, s, duties), [InsertedDuties(i, q.firstName, q.lastName)]);
  }

  /** `insertDatabase(persons, date)`: a line, then one turn per person, in the record's key order. */
  method InsertDatabase(store: Store, run: Run, persons: Roster, s: Span, duties: Duties)
    requires store.Valid() && Keyed(persons)
    modifies store, run
    ensures store.Valid()
    ensures var t := InsertAll(old(store.State()), Listing(persons), s, duties);
      store.State() == t.db && run.log == old(run.log) + [InsertingPersons] + t.log
    ensures run.error == old(run.error)
  {
    run.Log(InsertingPersons);
    InsertEach(store, run, persons, s, duties);
  }

  /** The loop `for (const k in persons)`. */
  method InsertEach(store: Store, run: Run, persons: Roster, s: Span, duties: Duties)
    requires store.Valid() && Keyed(persons)
    modifies store, run
    ensures store.Valid()
    ensures var t := InsertAll(old(store.State()), Listing(persons), s, duties);
      store.State() == t.db && run.log == old(run.log) + t.log
    ensures run.error == old(run.error)
  {
    ghost var ps := Listing(persons);
    ghost var db0, log0 := store.State(), run.log;
    var i := 0;
    while i < |persons.keys|
      invariant 0 <= i <= |persons.keys|
      invariant store.Valid()
      invariant store.State() == InsertAll(db0, ps[..i], s, duties).db
      invariant run.log == log0 + InsertAll(db0, ps[..i], s, duties).log
      invariant run.error == old(run.error)
    {
      InsertNext(store, run, ps, i, persons.entries[persons.keys[i]], s, duties, db0, log0);
      i := i + 1;
    }
    assert ps[..i] == ps;
  }

  /** One turn of the loop: person `i` follows the persons before it. */
  method InsertNext(store: Store, run: Run, ghost ps: seq<Person>, ghost i: nat, person: Person, s: Span, duties: Duties,
                    ghost db0: Db, ghost log0: seq<Entry>)
    requires i < |ps| && ps[i] == person && store.Valid()
    requires store.State() == InsertAll(db0, ps[..i], s, duties).db
    requires run.log == log0 + InsertAll(db0, ps[..i], s, duties).log
    modifies store, run
    ensures store.Valid()
    ensures store.State() == InsertAll(db0, ps[..i + 1], s, duties).db
    ensures run.log == log0 + InsertAll(db0, ps[..i + 1], s, duties).log
    ensures run.error == old(run.error)
  {
    ghost var before := InsertAll(db0, ps[..i], s, duties);
    InsertAllNext(db0, ps, i, s, duties);
    InsertPerson(store, run, person, s, duties);
    Concat(log0, before.log, PersonStep(before.db, person, s, duties).log);
  }

  /** `table 1`, then `table 2` when no error was raised, on one pointer starting at the top left cell. */
  method ReadBothTables(sheet: Sheet, run: Run) returns (persons: Roster)
    requires IngestTerminates(sheet) && !run.error
    modifies run
    ensures var o := ReadTables(sheet);
      persons == o.roster && run.log == old(run.log) + o.log && run.error == o.failed
  {
    var cursor := new CellPointer(sheet, 0, 0);
    persons := EmptyRoster;
    EmptyRosterValid();
    ghost var log0 := run.log;
    persons := FindAndParseTable(cursor, run, persons);
    ghost var first := ParseTable(sheet, 0, 0, EmptyRoster);
    if !run.error {
      ParseTableValid(sheet, 0, 0, EmptyRoster);
      persons := FindAndParseTable(cursor, run, persons);
      ghost var second := ParseTable(sheet, 0, first.cursorY, first.roster);
      Concat(log0, first.log, second.log);
    }
  }

  /**
   * `ingest(fileName)` on the first sheet of the file, with `currentYear`
   * for `dayjs().year()` and `duties` for the duty map of the database.
   * `None` stands for the thrown "Could not parse date from filename";
   * otherwise the result is the log.
   */
  method Ingest(fileName: string, currentYear: nat, sheet: Sheet, duties: Duties, store: Store, run: Run)
    returns (result: Option<seq<Entry>>)
    requires store.Valid() && IngestTerminates(sheet)
    modifies store, run
    ensures store.Valid()
    ensures var out := IngestOutcome(fileName, currentYear, sheet, duties, old(store.State()));
      && (out.None? ==> result.None? && run.log == [Ingesting(fileName)] && store.State() == old(store.State()))
      && (out.Some? ==> result == Some(run.log) && run.log == out.value.log && store.State() == out.value.db)
    ensures run.error <==> ParseFileName(fileName, currentYear).Some? && ReadTables(sheet).failed
  {
    run.log := [];
    run.error := false;
    run.Log(Ingesting(fileName));
    var date := ParseFileName(fileName, currentYear);
    if date.None? {
      return None;
    }
    var (y, m) := date.value;
    run.Log(AssumedDate(y, m));
    ghost var head := run.log;
    assert head == [Ingesting(fileName), AssumedDate(y, m)];
    var persons := ReadBothTables(sheet, run);
    if !run.error {
      ghost var log1, tables := run.log, ReadTables(sheet);
      InsertDatabase(store, run, persons, SpanOf(y, m), duties);
      ghost var t := InsertAll(old(store.State()), Listing(persons), SpanOf(y, m), duties);
      Concat(head, tables.log, [InsertingPersons]);
      Concat(head, tables.log + [InsertingPersons], t.log);
    }
    result := Some(run.log);
  }
}
