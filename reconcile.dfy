/**
 * `insertDatabase` of src/ingest.ts, stated on values: for each person of
 * the record, find the database person with the same last name (or create
 * one), delete that person's duty rows starting in the month, and insert
 * one row per day whose code names a duty.
 *
 * The database is a pair of tables.  A person's id is their position in
 * the person table; a duty row holds its times as wall-clock minutes, as
 * counted in module Calendar.
 */
module Reconcile {
  import opened Wrappers
  import opened Calendar
  import opened RunLog
  import opened IngestDuty
  import opened IngestTable

  /** A row of the person table. */
  datatype DbPerson = DbPerson(id: nat, firstName: string, lastName: string)

  /** A row of the duty table: person `personId` works duty `dutyId` from `startsAt` to `endsAt`. */
  datatype DutyRow = DutyRow(personId: nat, dutyId: string, startsAt: int, endsAt: int)

  datatype Db = Db(people: seq<DbPerson>, rows: seq<DutyRow>)

  /** Every person's id is their position. */
  ghost predicate Numbered(people: seq<DbPerson>) {
    forall i :: 0 <= i < |people| ==> people[i].id == i
  }

  /** The position of the first person from position `i` on with last name `lastName`. */
  function FindFrom(people: seq<DbPerson>, lastName: string, i: nat): (r: Option<nat>)
    requires i <= |people|
    ensures r.Some? ==> i <= r.value < |people|
    decreases |people| - i
  {
    if i == |people| then None
    else if people[i].lastName == lastName then Some(i)
    else FindFrom(people, lastName, i + 1)
  }

  /** `person.findFirst({ where: { lastName } })`, taking the first person in id order. */
  function FindByLastName(people: seq<DbPerson>, lastName: string): (r: Option<nat>)
    ensures r.Some? ==> r.value < |people|
  {
    FindFrom(people, lastName, 0)
  }

  /** The search finds the first person with the name, and fails only if there is none. */
  lemma {:induction false} FindFromSpec(people: seq<DbPerson>, lastName: string, i: nat)
    requires i <= |people|
    ensures var r := FindFrom(people, lastName, i);
      && (r.Some? ==> people[r.value].lastName == lastName && forall j :: i <= j < r.value ==> people[j].lastName != lastName)
      && (r.None? <==> forall j :: i <= j < |people| ==> people[j].lastName != lastName)
    decreases |people| - i
  {
    if i < |people| && people[i].lastName != lastName {
      FindFromSpec(people, lastName, i + 1);
    }
  }

  /** After appending a person, the search finds the same person as before, or else the new one if the name fits. */
  lemma {:induction false} FindAfterAppend(people: seq<DbPerson>, q: DbPerson, lastName: string, i: nat)
    requires i <= |people|
    ensures FindFrom(people + [q], lastName, i) ==
      if FindFrom(people, lastName, i).Some? then FindFrom(people, lastName, i)
      else if q.lastName == lastName then Some(|people|)
      else None
    decreases |people| - i
  {
    var ext := people + [q];
    if i == |people| {
      assert ext[i] == q;
      if q.lastName != lastName {
        assert FindFrom(ext, lastName, i + 1) == None;
      }
    } else {
      assert ext[i] == people[i];
      FindAfterAppend(people, q, lastName, i + 1);
    }
  }

  /** A row the count and the delete match: person `id`, starting within the window `w = [lo, hi)`. */
  predicate InWindow(r: DutyRow, id: nat, w: (int, int)) {
    r.personId == id && w.0 <= r.startsAt < w.1
  }

  /** `dienstplan.count` for person `id` and window `w`. */
  function CountIn(rows: seq<DutyRow>, id: nat, w: (int, int)): nat {
    if rows == [] then 0
    else CountIn(rows[..|rows| - 1], id, w) + if InWindow(rows[|rows| - 1], id, w) then 1 else 0
  }

  /** The rows `dienstplan.deleteMany` for person `id` and window `w` leaves, in their order. */
  function Keep(rows: seq<DutyRow>, id: nat, w: (int, int)): seq<DutyRow> {
    if rows == [] then []
    else Keep(rows[..|rows| - 1], id, w) + if InWindow(rows[|rows| - 1], id, w) then [] else [rows[|rows| - 1]]
  }

  /** The delete removes exactly the matching rows, and the count counts them. */
  lemma {:induction false} KeepSpec(rows: seq<DutyRow>, id: nat, w: (int, int))
    ensures forall r :: r in Keep(rows, id, w) <==> r in rows && !InWindow(r, id, w)
    ensures |Keep(rows, id, w)| + CountIn(rows, id, w) == |rows|
    ensures CountIn(rows, id, w) == 0 <==> forall r :: r in rows ==> !InWindow(r, id, w)
  {
    if rows != [] {
      var init, last := rows[..|rows| - 1], rows[|rows| - 1];
      assert rows == init + [last];
      KeepSpec(init, id, w);
    }
  }

  /** Deleting from two parts is deleting from their concatenation. */
  lemma {:induction false} KeepAppend(a: seq<DutyRow>, b: seq<DutyRow>, id: nat, w: (int, int))
    ensures Keep(a + b, id, w) == Keep(a, id, w) + Keep(b, id, w)
    decreases |b|
  {
    if b == [] {
      assert a + b == a;
    } else {
      var init, last := b[..|b| - 1], b[|b| - 1];
      assert (a + b)[..|a + b| - 1] == a + init;
      assert (a + b)[|a + b| - 1] == last;
      KeepAppend(a, init, id, w);
    }
  }

  /** A delete that matches nothing changes nothing. */
  lemma {:induction false} KeepNothing(rows: seq<DutyRow>, id: nat, w: (int, int))
    requires forall r :: r in rows ==> !InWindow(r, id, w)
    ensures Keep(rows, id, w) == rows
  {
    if rows != [] {
      var init := rows[..|rows| - 1];
      assert rows == init + [rows[|rows| - 1]];
      KeepNothing(init, id, w);
    }
  }

  /** A delete that matches everything leaves nothing. */
  lemma {:induction false} KeepEverything(rows: seq<DutyRow>, id: nat, w: (int, int))
    requires forall r :: r in rows ==> InWindow(r, id, w)
    ensures Keep(rows, id, w) == []
  {
    if rows != [] {
      var init := rows[..|rows| - 1];
      assert rows == init + [rows[|rows| - 1]];
      KeepEverything(init, id, w);
    }
  }

  /**
   * The month of the run's date as the loop uses it: the number of its
   * first day and how many days it has.
   */
  datatype Span = Span(first: int, length: nat)

  /** Month `m` of year `y`. */
  function SpanOf(y: nat, m: Month): Span {
    Span(MonthStart(y, m), DaysInMonth(y, m))
  }

  /** The count and delete window `[date.startOf('month'), date.endOf('month')]`, in whole minutes as `[lo, hi)`. */
  function Window(s: Span): (w: (int, int)) {
    (s.first * MinutesPerDay, (s.first + s.length) * MinutesPerDay)
  }

  /** The window of the span of a month runs from the month's first minute to the next month's. */
  lemma WindowOfMonth(y: nat, m: Month)
    ensures Window(SpanOf(y, m)) == MonthWindow(y, m)
  {
    MonthStartStep(y, m);
  }

  /** The day `date.set('date', day)` names: it rolls over into the next or the previous month like `Date.setDate`. */
  function DayNumber(s: Span, day: int): int {
    s.first + day - 1
  }

  /** What the day `d` of the sheet becomes in the month `s`. */
  function OutcomeOf(d: Day, s: Span, duties: Duties): DayOutcome {
    DayStep(d.schedule, DayNumber(s, d.day), duties)
  }

  /** The duty row a day inserts for person `id`, if any. */
  function BookedRow(id: nat, d: Day, s: Span, duties: Duties): seq<DutyRow> {
    match OutcomeOf(d, s, duties)
    case Booked(dutyId, startsAt, endsAt) => [DutyRow(id, dutyId, startsAt, endsAt)]
    case _ => []
  }

  /** The line a day logs, if any. */
  function LineOf(d: Day, s: Span, duties: Duties): seq<Entry> {
    match OutcomeOf(d, s, duties)
    case NotFound(schedule) => [DutyNotFound(schedule)]
    case _ => []
  }

  /** The rows the days insert for person `id`, in day order. */
  function BookedRows(id: nat, days: seq<Day>, s: Span, duties: Duties): seq<DutyRow> {
    if days == [] then []
    else BookedRows(id, days[..|days| - 1], s, duties) + BookedRow(id, days[|days| - 1], s, duties)
  }

  /** The "not found" lines the days log, in day order. */
  function MissingLines(days: seq<Day>, s: Span, duties: Duties): seq<Entry> {
    if days == [] then []
    else MissingLines(days[..|days| - 1], s, duties) + LineOf(days[|days| - 1], s, duties)
  }

  /** The number of days with an absence code. */
  function SkipCount(days: seq<Day>): nat {
    if days == [] then 0
    else SkipCount(days[..|days| - 1]) + if IsSkipped(days[|days| - 1].schedule) then 1 else 0
  }

  /**
   * Every inserted row belongs to the person, and every day is accounted
   * for once: it is skipped, reported missing, or inserts one row.
   */
  lemma {:induction false} BookedRowsSpec(id: nat, days: seq<Day>, s: Span, duties: Duties)
    ensures forall r :: r in BookedRows(id, days, s, duties) ==> r.personId == id
    ensures |BookedRows(id, days, s, duties)| + |MissingLines(days, s, duties)| + SkipCount(days) == |days|
  {
    if days != [] {
      var d := days[|days| - 1];
      BookedRowsSpec(id, days[..|days| - 1], s, duties);
      DayStepSpec(d.schedule, DayNumber(s, d.day), duties);
    }
  }

  /** Every day of the month has a number between the month's first day and the next month's. */
  predicate DaysInRange(days: seq<Day>, s: Span) {
    forall i :: 0 <= i < |days| ==> 1 <= days[i].day <= s.length
  }

  /** When the day numbers lie within the month, every inserted row starts within the month's window. */
  lemma {:induction false} BookedRowsInMonth(id: nat, days: seq<Day>, s: Span, duties: Duties)
    requires DaysInRange(days, s)
    ensures forall r :: r in BookedRows(id, days, s, duties) ==> InWindow(r, id, Window(s))
  {
    if days != [] {
      var init, d := days[..|days| - 1], days[|days| - 1];
      assert DaysInRange(init, s) by {
        forall i | 0 <= i < |init|
          ensures 1 <= init[i].day <= s.length
        {
          assert init[i] == days[i];
        }
      }
      BookedRowsInMonth(id, init, s, duties);
      var n := DayNumber(s, d.day);
      var o := OutcomeOf(d, s, duties);
      if o.Booked? {
        var duty := duties[Normalise(d.schedule)];
        ShiftSpec(n, duty);
        var w := Window(s);
        assert n * MinutesPerDay >= w.0;
        assert (n + 1) * MinutesPerDay <= w.1;
      }
    }
  }

  /** The outcome of the lookup: the person table after it, the person found or created, the line logged. */
  datatype Lookup = Lookup(people: seq<DbPerson>, person: DbPerson, lines: seq<Entry>)

  /**
   * The person the days of `p` are booked under: the first person with
   * `p`'s last name, or else a new one appended with the next id.
   */
  function Resolve(people: seq<DbPerson>, p: Person): Lookup {
    match FindByLastName(people, p.lastName)
    case Some(i) => Lookup(people, people[i], [])
    case None =>
      var q := DbPerson(|people|, p.firstName, p.lastName);
      Lookup(people + [q], q, [CreatedPerson(q.firstName, q.lastName)])
  }

  /**
   * The lookup keeps the ids numbered, returns a person with `p`'s last
   * name, creates one (with `p`'s first name) only if there is none, and
   * afterwards the same lookup finds the person it returned.
   */
  lemma ResolveSpec(people: seq<DbPerson>, p: Person)
    requires Numbered(people)
    ensures var l := Resolve(people, p);
      && Numbered(l.people)
      && l.person.id < |l.people| && l.people[l.person.id] == l.person && l.person.lastName == p.lastName
      && FindByLastName(l.people, p.lastName) == Some(l.person.id)
      && (FindByLastName(people, p.lastName).Some? ==> l.people == people && l.lines == [])
      && (FindByLastName(people, p.lastName).None? ==>
            && l.people == people + [l.person] && l.person.firstName == p.firstName
            && l.lines == [CreatedPerson(p.firstName, p.lastName)])
  {
    FindFromSpec(people, p.lastName, 0);
    var l := Resolve(people, p);
    if FindByLastName(people, p.lastName).None? {
      FindAfterAppend(people, l.person, p.lastName, 0);
    }
  }

  /** A second lookup finds the person the first one returned, and creates nobody. */
  lemma ResolveAgain(people: seq<DbPerson>, p: Person)
    requires Numbered(people)
    ensures var l := Resolve(people, p);
      Resolve(l.people, p) == Lookup(l.people, l.person, [])
  {
    ResolveSpec(people, p);
  }

  /** The line the count logs when the person already has rows in the month. */
  function ClearLine(rows: seq<DutyRow>, q: DbPerson, w: (int, int)): seq<Entry> {
    if CountIn(rows, q.id, w) > 0 then [AlreadyHasDuties(q.firstName, q.lastName)] else []
  }

  /** A database and the lines logged on the way to it. */
  datatype Turn = Turn(db: Db, log: seq<Entry>)

  /** One turn of the `for (const k in persons)` loop, for person `p`, in the month `s`. */
  function PersonStep(db: Db, p: Person, s: Span, duties: Duties): Turn {
    var l := Resolve(db.people, p);
    var q := l.person;
    var w := Window(s);
    var booked := BookedRows(q.id, p.days, s, duties);
    Turn(Db(l.people, Keep(db.rows, q.id, w) + booked),
         l.lines + ClearLine(db.rows, q, w) + MissingLines(p.days, s, duties) + [InsertedDuties(|booked|, q.firstName, q.lastName)])
  }

  /**
   * One person's turn replaces that person's rows in the month by the rows
   * of the days and leaves every other row; the last line reports how
   * many rows were inserted, under the database person's names.
   */
  lemma PersonStepRows(db: Db, p: Person, s: Span, duties: Duties)
    ensures var q := Resolve(db.people, p).person;
      var t, w, booked := PersonStep(db, p, s, duties), Window(s), BookedRows(q.id, p.days, s, duties);
      && (forall r :: r in t.db.rows <==> (r in db.rows && !InWindow(r, q.id, w)) || r in booked)
      && (forall r: DutyRow :: r.personId != q.id ==> (r in t.db.rows <==> r in db.rows))
      && t.log[|t.log| - 1] == InsertedDuties(|booked|, q.firstName, q.lastName)
  {
    var q := Resolve(db.people, p).person;
    KeepSpec(db.rows, q.id, Window(s));
    BookedRowsSpec(q.id, p.days, s, duties);
  }

  /** A turn keeps the ids numbered and at most appends one person. */
  lemma PersonStepPeople(db: Db, p: Person, s: Span, duties: Duties)
    requires Numbered(db.people)
    ensures var people' := PersonStep(db, p, s, duties).db.people;
      Numbered(people') && |db.people| <= |people'| <= |db.people| + 1 && people'[..|db.people|] == db.people
  {
    ResolveSpec(db.people, p);
  }

  /** The rows of a database person with another last name survive a turn. */
  lemma PersonStepKeepsOthers(db: Db, p: Person, s: Span, duties: Duties, row: DutyRow)
    requires Numbered(db.people)
    requires row in db.rows && row.personId < |db.people| && db.people[row.personId].lastName != p.lastName
    ensures row in PersonStep(db, p, s, duties).db.rows
  {
    ResolveSpec(db.people, p);
    var q := Resolve(db.people, p).person;
    assert row.personId != q.id by {
      if FindByLastName(db.people, p.lastName).Some? {
        assert db.people[row.personId].id == row.personId;
      }
    }
    PersonStepRows(db, p, s, duties);
  }

  /**
   * Ingesting the same person twice in a row leaves the database as once:
   * the second lookup finds the person, the delete removes exactly the
   * rows the first turn inserted and the days insert them again.
   */
  lemma PersonStepIdempotent(db: Db, p: Person, s: Span, duties: Duties)
    requires Numbered(db.people) && DaysInRange(p.days, s)
    ensures var once := PersonStep(db, p, s, duties).db;
      PersonStep(once, p, s, duties).db == once
  {
    var once := PersonStep(db, p, s, duties).db;
    ResolveAgain(db.people, p);
    var q := Resolve(db.people, p).person;
    var w := Window(s);
    var kept, booked := Keep(db.rows, q.id, w), BookedRows(q.id, p.days, s, duties);
    assert once.rows == kept + booked;
    KeepAppend(kept, booked, q.id, w);
    KeepSpec(db.rows, q.id, w);
    KeepNothing(kept, q.id, w);
    BookedRowsInMonth(q.id, p.days, s, duties);
    KeepEverything(booked, q.id, w);
    assert Keep(once.rows, q.id, w) == kept;
  }

  /** Every listed key names a person of the record. */
  ghost predicate Keyed(r: Roster) {
    forall i :: 0 <= i < |r.keys| ==> r.keys[i] in r.entries
  }

  /** The persons of the record in the order `for (const k in persons)` visits them. */
  ghost function Listing(r: Roster): (ps: seq<Person>)
    requires Keyed(r)
    ensures |ps| == |r.keys| && forall i :: 0 <= i < |ps| ==> ps[i] == r.entries[r.keys[i]]
  {
    seq(|r.keys|, i requires 0 <= i < |r.keys| => r.entries[r.keys[i]])
  }

  /** The turns of the loop for the persons `ps`, in order, from the database `db`. */
  function InsertAll(db: Db, ps: seq<Person>, s: Span, duties: Duties): Turn {
    if ps == [] then Turn(db, [])
    else
      var before := InsertAll(db, ps[..|ps| - 1], s, duties);
      var t := PersonStep(before.db, ps[|ps| - 1], s, duties);
      Turn(t.db, before.log + t.log)
  }

  /** The turns of the first `i + 1` persons are those of the first `i`, then the turn of person `i`. */
  lemma InsertAllNext(db: Db, ps: seq<Person>, i: nat, s: Span, duties: Duties)
    requires i < |ps|
    ensures var before := InsertAll(db, ps[..i], s, duties);
      var t := PersonStep(before.db, ps[i], s, duties);
      InsertAll(db, ps[..i + 1], s, duties) == Turn(t.db, before.log + t.log)
  {
    assert ps[..i + 1][..i] == ps[..i];
  }

  /** The loop keeps the ids numbered and only ever appends persons. */
  lemma {:induction false} InsertAllPeople(db: Db, ps: seq<Person>, s: Span, duties: Duties)
    requires Numbered(db.people)
    ensures var people' := InsertAll(db, ps, s, duties).db.people;
      Numbered(people') && |db.people| <= |people'| && people'[..|db.people|] == db.people
  {
    if ps != [] {
      InsertAllPeople(db, ps[..|ps| - 1], s, duties);
      var db1 := InsertAll(db, ps[..|ps| - 1], s, duties).db;
      PersonStepPeople(db1, ps[|ps| - 1], s, duties);
      var people2 := PersonStep(db1, ps[|ps| - 1], s, duties).db.people;
      assert people2[..|db.people|] == db1.people[..|db.people|];
    }
  }

  /** A row of a database person whose last name no person of `ps` has survives the loop. */
  lemma {:induction false} InsertAllKeepsOthers(db: Db, ps: seq<Person>, s: Span, duties: Duties, row: DutyRow)
    requires Numbered(db.people)
    requires row in db.rows && row.personId < |db.people|
    requires forall i :: 0 <= i < |ps| ==> ps[i].lastName != db.people[row.personId].lastName
    ensures row in InsertAll(db, ps, s, duties).db.rows
  {
    if ps != [] {
      var init := ps[..|ps| - 1];
      assert forall i :: 0 <= i < |init| ==> init[i] == ps[i];
      InsertAllKeepsOthers(db, init, s, duties, row);
      InsertAllPeople(db, init, s, duties);
      var db1 := InsertAll(db, init, s, duties).db;
      assert db1.people[row.personId] == db1.people[..|db.people|][row.personId];
      PersonStepKeepsOthers(db1, ps[|ps| - 1], s, duties, row);
    }
  }

  /** After the loop, the lookup by last name finds a database person for every person of the record. */
  lemma {:induction false} InsertAllFinds(db: Db, ps: seq<Person>, s: Span, duties: Duties)
    requires Numbered(db.people)
    ensures forall i :: 0 <= i < |ps| ==> FindByLastName(InsertAll(db, ps, s, duties).db.people, ps[i].lastName).Some?
  {
    if ps != [] {
      var init, p := ps[..|ps| - 1], ps[|ps| - 1];
      InsertAllFinds(db, init, s, duties);
      InsertAllPeople(db, init, s, duties);
      var db1 := InsertAll(db, init, s, duties).db;
      ResolveSpec(db1.people, p);
      var l := Resolve(db1.people, p);
      forall i | 0 <= i < |ps|
        ensures FindByLastName(l.people, ps[i].lastName).Some?
      {
        if i < |init| {
          assert ps[i] == init[i];
          if l.people != db1.people {
            FindAfterAppend(db1.people, l.person, ps[i].lastName, 0);
          }
        }
      }
    }
  }

  /** A row the deletes for all the ids `ids` in the window `w` match. */
  predicate Matched(r: DutyRow, ids: seq<nat>, w: (int, int)) {
    r.personId in ids && w.0 <= r.startsAt < w.1
  }

  /** The rows that survive the deletes for every id of `ids`, in their order. */
  function Strip(rows: seq<DutyRow>, ids: seq<nat>, w: (int, int)): seq<DutyRow> {
    if rows == [] then []
    else Strip(rows[..|rows| - 1], ids, w) + if Matched(rows[|rows| - 1], ids, w) then [] else [rows[|rows| - 1]]
  }

  /** With no ids, nothing is deleted. */
  lemma {:induction false} StripNone(rows: seq<DutyRow>, w: (int, int))
    ensures Strip(rows, [], w) == rows
  {
    if rows != [] {
      assert rows == rows[..|rows| - 1] + [rows[|rows| - 1]];
      StripNone(rows[..|rows| - 1], w);
    }
  }

  /** One more delete, for `q`, is a delete for `ids + [q]`. */
  lemma {:induction false} StripKeep(rows: seq<DutyRow>, ids: seq<nat>, q: nat, w: (int, int))
    ensures Keep(Strip(rows, ids, w), q, w) == Strip(rows, ids + [q], w)
  {
    if rows != [] {
      var init, last := rows[..|rows| - 1], rows[|rows| - 1];
      StripKeep(init, ids, q, w);
      var e := if Matched(last, ids, w) then [] else [last];
      KeepAppend(Strip(init, ids, w), e, q, w);
      assert e != [] ==> e[..0] == [];
      assert Matched(last, ids + [q], w) <==> Matched(last, ids, w) || InWindow(last, q, w);
    }
  }

  /** The deletes distribute over concatenation. */
  lemma {:induction false} StripAppend(a: seq<DutyRow>, b: seq<DutyRow>, ids: seq<nat>, w: (int, int))
    ensures Strip(a + b, ids, w) == Strip(a, ids, w) + Strip(b, ids, w)
    decreases |b|
  {
    if b == [] {
      assert a + b == a;
    } else {
      var init := b[..|b| - 1];
      assert (a + b)[..|a + b| - 1] == a + init;
      assert (a + b)[|a + b| - 1] == b[|b| - 1];
      StripAppend(a, init, ids, w);
    }
  }

  /** Deleting twice is deleting once. */
  lemma {:induction false} StripTwice(rows: seq<DutyRow>, ids: seq<nat>, w: (int, int))
    ensures Strip(Strip(rows, ids, w), ids, w) == Strip(rows, ids, w)
  {
    if rows != [] {
      var init, last := rows[..|rows| - 1], rows[|rows| - 1];
      StripTwice(init, ids, w);
      var e := if Matched(last, ids, w) then [] else [last];
      StripAppend(Strip(init, ids, w), e, ids, w);
      assert e != [] ==> e[..0] == [];
    }
  }

  /** Rows that all match are all deleted. */
  lemma {:induction false} StripAll(rows: seq<DutyRow>, ids: seq<nat>, w: (int, int))
    requires forall r :: r in rows ==> Matched(r, ids, w)
    ensures Strip(rows, ids, w) == []
  {
    if rows != [] {
      var init := rows[..|rows| - 1];
      assert rows == init + [rows[|rows| - 1]];
      StripAll(init, ids, w);
    }
  }

  /**
   * The rows the turns for the persons `ps`, booked under the ids `ids`,
   * leave at the end of the table: each turn deletes its id's month rows
   * from the rows before and appends its own.
   */
  function Tail(ids: seq<nat>, ps: seq<Person>, s: Span, duties: Duties): seq<DutyRow>
    requires |ids| == |ps|
  {
    if ps == [] then []
    else
      var q := ids[|ids| - 1];
      Keep(Tail(ids[..|ids| - 1], ps[..|ps| - 1], s, duties), q, Window(s)) + BookedRows(q, ps[|ps| - 1].days, s, duties)
  }

  /** For days within the month, every appended row is one the deletes for `ids` match. */
  lemma {:induction false} TailMatched(ids: seq<nat>, ps: seq<Person>, s: Span, duties: Duties)
    requires |ids| == |ps| && forall i :: 0 <= i < |ps| ==> DaysInRange(ps[i].days, s)
    ensures forall r :: r in Tail(ids, ps, s, duties) ==> Matched(r, ids, Window(s))
  {
    if ps != [] {
      var ids', init, q, w := ids[..|ids| - 1], ps[..|ps| - 1], ids[|ids| - 1], Window(s);
      assert forall i :: 0 <= i < |init| ==> init[i] == ps[i];
      TailMatched(ids', init, s, duties);
      KeepSpec(Tail(ids', init, s, duties), q, w);
      BookedRowsInMonth(q, ps[|ps| - 1].days, s, duties);
      assert ids == ids' + [q];
    }
  }

  /** The id each turn of the loop over `ps` books under, in order. */
  function Ids(db: Db, ps: seq<Person>, s: Span, duties: Duties): (ids: seq<nat>)
    ensures |ids| == |ps|
  {
    if ps == [] then []
    else Ids(db, ps[..|ps| - 1], s, duties) + [Resolve(InsertAll(db, ps[..|ps| - 1], s, duties).db.people, ps[|ps| - 1]).person.id]
  }

  /** Turn `i` books under the id its lookup returns on the table the turns before it leave. */
  lemma {:induction false} IdsAt(db: Db, ps: seq<Person>, i: nat, s: Span, duties: Duties)
    requires i < |ps|
    ensures Ids(db, ps, s, duties)[i] == Resolve(InsertAll(db, ps[..i], s, duties).db.people, ps[i]).person.id
  {
    if i < |ps| - 1 {
      var init := ps[..|ps| - 1];
      IdsAt(db, init, i, s, duties);
      assert init[..i] == ps[..i] && init[i] == ps[i];
    }
  }

  /** One turn of the deletes and appends, on plain sequences of rows. */
  lemma RowsStep(rows: seq<DutyRow>, ids: seq<nat>, tail: seq<DutyRow>, q: nat, booked: seq<DutyRow>, w: (int, int))
    ensures Keep(Strip(rows, ids, w) + tail, q, w) + booked == Strip(rows, ids + [q], w) + (Keep(tail, q, w) + booked)
  {
    KeepAppend(Strip(rows, ids, w), tail, q, w);
    StripKeep(rows, ids, q, w);
  }

  /**
   * The rows after the loop: the old rows without the month rows of every
   * id booked under, followed by the rows the turns append.
   */
  lemma {:induction false} InsertAllRows(db: Db, ps: seq<Person>, s: Span, duties: Duties)
    ensures var ids := Ids(db, ps, s, duties);
      InsertAll(db, ps, s, duties).db.rows == Strip(db.rows, ids, Window(s)) + Tail(ids, ps, s, duties)
  {
    var w := Window(s);
    if ps == [] {
      StripNone(db.rows, w);
    } else {
      var init := ps[..|ps| - 1];
      var ids, ids' := Ids(db, ps, s, duties), Ids(db, init, s, duties);
      var q := ids[|ids| - 1];
      assert ids == ids' + [q];
      InsertAllRows(db, init, s, duties);
      RowsStep(db.rows, ids', Tail(ids', init, s, duties), q, BookedRows(q, ps[|ps| - 1].days, s, duties), w);
    }
  }

  /** Appending persons does not change whom a successful search finds. */
  lemma FindAfterExtend(people: seq<DbPerson>, extra: seq<DbPerson>, lastName: string)
    requires FindByLastName(people, lastName).Some?
    ensures FindByLastName(people + extra, lastName) == FindByLastName(people, lastName)
  {
    var ext := people + extra;
    FindFromSpec(people, lastName, 0);
    FindFromSpec(ext, lastName, 0);
    var k := FindByLastName(people, lastName).value;
    assert ext[k] == people[k];
  }

  /** The person table after some of the turns is a prefix of the table after all of them. */
  lemma {:induction false} PeoplePrefix(db: Db, ps: seq<Person>, k: nat, s: Span, duties: Duties)
    requires Numbered(db.people) && k <= |ps|
    ensures var a, b := InsertAll(db, ps[..k], s, duties).db.people, InsertAll(db, ps, s, duties).db.people;
      |a| <= |b| && b[..|a|] == a
  {
    if k == |ps| {
      assert ps[..k] == ps;
    } else {
      var init := ps[..|ps| - 1];
      assert init[..k] == ps[..k];
      PeoplePrefix(db, init, k, s, duties);
      InsertAllPeople(db, init, s, duties);
      var before := InsertAll(db, init, s, duties).db;
      PersonStepPeople(before, ps[|ps| - 1], s, duties);
      var a, m, b := InsertAll(db, ps[..k], s, duties).db.people, before.people, InsertAll(db, ps, s, duties).db.people;
      assert b[..|a|] == b[..|m|][..|a|];
    }
  }

  /** Right after its own turn, the search for the last name of person `i` finds the id that turn booked under. */
  lemma FoundAtTurn(db: Db, ps: seq<Person>, i: nat, s: Span, duties: Duties)
    requires Numbered(db.people) && i < |ps|
    ensures FindByLastName(InsertAll(db, ps[..i + 1], s, duties).db.people, ps[i].lastName) == Some(Ids(db, ps, s, duties)[i])
  {
    var before := InsertAll(db, ps[..i], s, duties).db;
    InsertAllPeople(db, ps[..i], s, duties);
    ResolveSpec(before.people, ps[i]);
    InsertAllNext(db, ps, i, s, duties);
    IdsAt(db, ps, i, s, duties);
  }

  /** After the loop, the search for the last name of person `i` finds the id that person was booked under. */
  lemma FoundAfter(db: Db, ps: seq<Person>, i: nat, s: Span, duties: Duties)
    requires Numbered(db.people) && i < |ps|
    ensures FindByLastName(InsertAll(db, ps, s, duties).db.people, ps[i].lastName) == Some(Ids(db, ps, s, duties)[i])
  {
    FoundAtTurn(db, ps, i, s, duties);
    PeoplePrefix(db, ps, i + 1, s, duties);
    var a, b := InsertAll(db, ps[..i + 1], s, duties).db.people, InsertAll(db, ps, s, duties).db.people;
    assert b == a + b[|a|..];
    FindAfterExtend(a, b[|a|..], ps[i].lastName);
  }

  /** A turn for a last name the table already holds creates nobody and books under the id found. */
  lemma StepFound(db: Db, p: Person, s: Span, duties: Duties)
    requires Numbered(db.people) && FindByLastName(db.people, p.lastName).Some?
    ensures PersonStep(db, p, s, duties).db.people == db.people
    ensures Resolve(db.people, p).person.id == FindByLastName(db.people, p.lastName).value
  {
  }

  /** Running the loop again over its own result creates nobody. */
  lemma {:induction false} RerunPeople(db: Db, ps: seq<Person>, i: nat, s: Span, duties: Duties)
    requires Numbered(db.people) && i <= |ps|
    ensures var once := InsertAll(db, ps, s, duties).db;
      InsertAll(once, ps[..i], s, duties).db.people == once.people
  {
    var once := InsertAll(db, ps, s, duties).db;
    if i == 0 {
      assert ps[..0] == [];
    } else {
      RerunPeople(db, ps, i - 1, s, duties);
      InsertAllNext(once, ps, i - 1, s, duties);
      FoundAfter(db, ps, i - 1, s, duties);
      InsertAllPeople(db, ps, s, duties);
      var before := InsertAll(once, ps[..i - 1], s, duties).db;
      StepFound(before, ps[i - 1], s, duties);
    }
  }

  /** Running the loop again books every person under the same id. */
  lemma RerunIds(db: Db, ps: seq<Person>, s: Span, duties: Duties)
    requires Numbered(db.people)
    ensures Ids(InsertAll(db, ps, s, duties).db, ps, s, duties) == Ids(db, ps, s, duties)
  {
    var once := InsertAll(db, ps, s, duties).db;
    InsertAllPeople(db, ps, s, duties);
    forall i | 0 <= i < |ps|
      ensures Ids(once, ps, s, duties)[i] == Ids(db, ps, s, duties)[i]
    {
      RerunPeople(db, ps, i, s, duties);
      FoundAfter(db, ps, i, s, duties);
      StepFound(InsertAll(once, ps[..i], s, duties).db, ps[i], s, duties);
      IdsAt(once, ps, i, s, duties);
    }
  }

  /** Deleting again the month rows of `ids` from rows that end in matched rows removes exactly those. */
  lemma RerunRows(rows: seq<DutyRow>, ids: seq<nat>, tail: seq<DutyRow>, w: (int, int))
    requires forall r :: r in tail ==> Matched(r, ids, w)
    ensures Strip(Strip(rows, ids, w) + tail, ids, w) + tail == Strip(rows, ids, w) + tail
  {
    var kept := Strip(rows, ids, w);
    StripAppend(kept, tail, ids, w);
    StripTwice(rows, ids, w);
    StripAll(tail, ids, w);
    assert kept + [] == kept;
  }

  /**
   * Ingesting the same persons again leaves the database as after the
   * first run: nobody is created, and the deletes remove exactly the rows
   * the first run appended before the turns append them again.
   */
  lemma InsertAllIdempotent(db: Db, ps: seq<Person>, s: Span, duties: Duties)
    requires Numbered(db.people) && forall i :: 0 <= i < |ps| ==> DaysInRange(ps[i].days, s)
    ensures var once := InsertAll(db, ps, s, duties).db;
      InsertAll(once, ps, s, duties).db == once
  {
    var once, w := InsertAll(db, ps, s, duties).db, Window(s);
    var ids := Ids(db, ps, s, duties);
    RerunIds(db, ps, s, duties);
    RerunPeople(db, ps, |ps|, s, duties);
    assert ps[..|ps|] == ps;
    InsertAllRows(db, ps, s, duties);
    InsertAllRows(once, ps, s, duties);
    TailMatched(ids, ps, s, duties);
    RerunRows(db.rows, ids, Tail(ids, ps, s, duties), w);
  }

  /**
   * Without the days in the month the rerun is not idempotent: a booked
   * day past the month's end lands outside the delete window, so a second
   * run keeps the first run's row and appends it again.
   */
  lemma RerunPastMonthEnd(db: Db, p: Person, s: Span, duties: Duties)
    requires Numbered(db.people) && |p.days| == 1 && p.days[0].day > s.length
    requires OutcomeOf(p.days[0], s, duties).Booked?
    ensures var once := InsertAll(db, [p], s, duties).db;
      |InsertAll(once, [p], s, duties).db.rows| == |once.rows| + 1
  {
    assert [p][..0] == [];
    var once := PersonStep(db, p, s, duties).db;
    ResolveAgain(db.people, p);
    var q, w := Resolve(db.people, p).person, Window(s);
    var d := p.days[0];
    assert p.days[..0] == [];
    var booked := BookedRow(q.id, d, s, duties);
    assert BookedRows(q.id, p.days, s, duties) == booked;
    var n := DayNumber(s, d.day);
    ShiftSpec(n, duties[Normalise(d.schedule)]);
    assert n * MinutesPerDay >= w.1;
    KeepAppend(Keep(db.rows, q.id, w), booked, q.id, w);
    KeepNothing(booked, q.id, w);
    KeepSpec(db.rows, q.id, w);
    KeepNothing(Keep(db.rows, q.id, w), q.id, w);
  }
}
