/**
 * The module-level `_log` / `_error` pair of src/ingest.ts and
 * src/ingestNg.ts, gathered into one object.  Log lines are kept as
 * structured entries; their emoji and wording are not modelled.
 */
module RunLog {

  datatype Entry =
    | Ingesting(fileName: string)
    | AssumedDate(year: int, month: int)
    | LookingForTable(at: string)
    | CouldNotFindTable
    | FoundTable(at: string)
    | CouldNotFindNames
    | FoundPersons(count: nat)
    | LookingForFirstDay(at: string)
    | FoundFirstDay(at: string)
    | ProcessedDays(days: nat, schedules: int)
    | InsertingPersons
    | CreatedPerson(firstName: string, lastName: string)
    | AlreadyHasDuties(firstName: string, lastName: string)
    | DutyNotFound(schedule: string)
    | InsertedDuties(count: nat, firstName: string, lastName: string)
    | ParsingTable(at: string)
    | ParsedRows(rows: nat)

  /** Appending in two steps is appending once. */
  lemma Concat(a: seq<Entry>, b: seq<Entry>, c: seq<Entry>)
    ensures (a + b) + c == a + (b + c)
  {
  }

  class Run {
    var log: seq<Entry>
    var error: bool

    constructor ()
      ensures log == [] && !error
    {
      log := [];
      error := false;
    }

    /** `log(message)`: append one line. */
    method Log(e: Entry)
      modifies this
      ensures log == old(log) + [e] && error == old(error)
    {
      log := log + [e];
    }
  }
}
