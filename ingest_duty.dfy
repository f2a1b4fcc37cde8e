/**
 * The per-day step of `insertDatabase` in src/ingest.ts: a schedule code
 * from the sheet is dropped when it is an absence code, normalised, looked
 * up among the duties, and turned into a start and an end time.
 */
module IngestDuty {
  import opened Strings
  import opened Calendar

  type Hour = h: int | 0 <= h < 24
  type Minute = m: int | 0 <= m < 60

  /**
   * A duty of the duty map: its id and the wall-clock times it starts and
   * ends at (the hour and minute of its stored start and end; the stored
   * dates play no part).
   */
  datatype Duty = Duty(id: string, startH: Hour, startM: Minute, endH: Hour, endM: Minute)

  /** The duty map, keyed by short name. */
  type Duties = map<string, Duty>

  /** The absence codes: a day with exactly one of these is skipped. */
  const SkipCodes: seq<string> := ["EZ", "BV", "Frei", "FW", "Url", "FB"]

  predicate IsSkipped(schedule: string) {
    schedule in SkipCodes
  }

  /**
   * The two rewrites of the code: every `1CT…` or `TD1C…` code is the duty
   * `1CT`, every `ZNAT…` code the duty `ZNATW`.
   */
  function Normalise(code: string): (r: string) {
    var c := if StartsWith(code, "1CT") || StartsWith(code, "TD1C") then "1CT" else code;
    if StartsWith(c, "ZNAT") then "ZNATW" else c
  }

  /** The normaliser in three cases. */
  lemma NormaliseSpec(code: string)
    ensures StartsWith(code, "1CT") || StartsWith(code, "TD1C") ==> Normalise(code) == "1CT"
    ensures StartsWith(code, "ZNAT") ==> Normalise(code) == "ZNATW"
    ensures !StartsWith(code, "1CT") && !StartsWith(code, "TD1C") && !StartsWith(code, "ZNAT") ==> Normalise(code) == code
  {
    assert !StartsWith("1CT", "ZNAT");
    if StartsWith(code, "ZNAT") {
      assert code[..4][0] == 'Z';
      assert code[..3][0] == 'Z' && code[..4][0] == 'Z';
    }
  }

  /** Normalising a normalised code changes nothing. */
  lemma NormaliseIdempotent(code: string)
    ensures Normalise(Normalise(code)) == Normalise(code)
  {
    NormaliseSpec(code);
    NormaliseSpec("1CT");
    NormaliseSpec("ZNATW");
    assert !StartsWith("1CT", "TD1C") && !StartsWith("1CT", "ZNAT");
    assert StartsWith("ZNATW", "ZNAT");
  }

  /** The minute of the day a duty starts or ends at. */
  function ClockMinute(h: Hour, m: Minute): (t: nat)
    ensures t < MinutesPerDay
  {
    h * 60 + m
  }

  /**
   * The shift of duty `d` on the day numbered `day`: both times start from
   * the day's midnight; the end moves to the next day when the start lies
   * strictly after it.
   */
  function Shift(day: int, d: Duty): (s: (int, int)) {
    var midnight := day * MinutesPerDay;
    var startsAt := midnight + ClockMinute(d.startH, d.startM);
    var endsAt := midnight + ClockMinute(d.endH, d.endM);
    if startsAt > endsAt then (startsAt, endsAt + MinutesPerDay) else (startsAt, endsAt)
  }

  /**
   * A shift starts on its own day, never ends before it starts and lasts
   * less than a day; it rolls over exactly when the duty ends at an earlier
   * clock time than it starts, and it is empty exactly when both clock
   * times agree.
   */
  lemma ShiftSpec(day: int, d: Duty)
    ensures var (startsAt, endsAt) := Shift(day, d);
      && day * MinutesPerDay <= startsAt < (day + 1) * MinutesPerDay
      && startsAt <= endsAt < startsAt + MinutesPerDay
      && (endsAt >= (day + 1) * MinutesPerDay <==> ClockMinute(d.startH, d.startM) > ClockMinute(d.endH, d.endM))
      && (endsAt % MinutesPerDay == ClockMinute(d.endH, d.endM))
      && (startsAt == endsAt <==> ClockMinute(d.startH, d.startM) == ClockMinute(d.endH, d.endM))
  {
    var midnight := day * MinutesPerDay;
    assert (day + 1) * MinutesPerDay == midnight + MinutesPerDay;
    var (startsAt, endsAt) := Shift(day, d);
    if ClockMinute(d.startH, d.startM) > ClockMinute(d.endH, d.endM) {
      assert endsAt == (day + 1) * MinutesPerDay + ClockMinute(d.endH, d.endM);
    } else {
      assert endsAt == day * MinutesPerDay + ClockMinute(d.endH, d.endM);
    }
  }

  /** The night duty `ZNAN` of the seed data, 20:00 to 08:30: it ends at 08:30 on the next day. */
  lemma NightShiftRollsOver(day: int)
    ensures Shift(day, Duty("ZNAN", 20, 0, 8, 30)) == (day * 1440 + 1200, (day + 1) * 1440 + 510)
  {
  }

  /** The day duty `TD` of the seed data, 08:00 to 16:30, stays on its day. */
  lemma DayShiftStays(day: int)
    ensures Shift(day, Duty("TD", 8, 0, 16, 30)) == (day * 1440 + 480, day * 1440 + 990)
  {
  }

  /**
   * The duty `NEF1` of the seed data is stored as 08:00 to 08:00 of the next
   * day; only the clock times count, so its shift is empty.
   */
  lemma EqualTimesEmptyShift(day: int)
    ensures Shift(day, Duty("NEF1", 8, 0, 8, 0)) == (day * 1440 + 480, day * 1440 + 480)
  {
  }

  /** What one day of a person becomes. */
  datatype DayOutcome =
    | Skipped
    | NotFound(schedule: string)
    | Booked(dutyId: string, startsAt: int, endsAt: int)

  /**
   * The per-day step for the day `dayNumber` holding `schedule`: absence
   * codes are dropped before any lookup, an unknown normalised code is
   * reported with its original text, and a known one books its shift.
   */
  function DayStep(schedule: string, dayNumber: int, duties: Duties): (o: DayOutcome) {
    if IsSkipped(schedule) then Skipped
    else if Normalise(schedule) !in duties then NotFound(schedule)
    else
      var d := duties[Normalise(schedule)];
      var (startsAt, endsAt) := Shift(dayNumber, d);
      Booked(d.id, startsAt, endsAt)
  }

  /**
   * The step in its three outcomes: skipped exactly for an absence code,
   * not found exactly when the normalised code is missing, and otherwise
   * booked with the shift of the normalised code's duty.
   */
  lemma DayStepSpec(schedule: string, dayNumber: int, duties: Duties)
    ensures DayStep(schedule, dayNumber, duties).Skipped? <==> IsSkipped(schedule)
    ensures DayStep(schedule, dayNumber, duties).NotFound? <==> !IsSkipped(schedule) && Normalise(schedule) !in duties
    ensures DayStep(schedule, dayNumber, duties).NotFound? ==> DayStep(schedule, dayNumber, duties).schedule == schedule
    ensures DayStep(schedule, dayNumber, duties).Booked? ==>
      var d := duties[Normalise(schedule)];
      && DayStep(schedule, dayNumber, duties).dutyId == d.id
      && (DayStep(schedule, dayNumber, duties).startsAt, DayStep(schedule, dayNumber, duties).endsAt) == Shift(dayNumber, d)
  {
  }

  /** The skip test compares whole codes, case included. */
  lemma SkipIsExact()
    ensures IsSkipped("Frei") && !IsSkipped("frei") && !IsSkipped("Frei ") && !IsSkipped("Feiertag")
  {
    assert "frei" != "Frei" && "frei" != "EZ" && "frei" != "BV" && "frei" != "FW" && "frei" != "Url" && "frei" != "FB";
  }
}
