/** The schedule record, whose total hours are recomputed on every save. */
module Schedules {
  import opened Wrappers
  import opened Clock
  import opened Calendar

  /** A row of the schedules table; `totalHours` is in hundredths of an hour. */
  datatype Schedule = Schedule(
    id: nat,
    userId: nat,
    date: Day,
    startTime: Time,
    endTime: Time,
    totalHours: nat,
    locationId: Option<nat>,
    isRecurring: bool,
    recurrencePattern: Option<string>)

  /**
   * `calculateTotalHours`: the whole minutes between start and end as hours
   * rounded to two decimals; both times are read on the same day, so the
   * difference is absolute and below 24 hours.
   */
  function CalculateTotalHours(s: Schedule): (h: nat)
    ensures h < 2400
    ensures -30 < 100 * MinutesBetween(s.startTime, s.endTime) - 60 * h < 30
  {
    var minutes := MinutesBetween(s.startTime, s.endTime);
    HundredthsWithinDay(minutes);
    HundredthsOfHours(minutes)
  }

  /** `save`: the total is always recomputed; nothing else changes. */
  function Save(s: Schedule): (t: Schedule)
    ensures t.totalHours == CalculateTotalHours(s)
    ensures t.(totalHours := s.totalHours) == s
  {
    s.(totalHours := CalculateTotalHours(s))
  }

  /** Whatever total the caller supplies is discarded by `save`. */
  lemma SaveDiscardsSuppliedHours(s: Schedule, a: nat, b: nat)
    ensures Save(s.(totalHours := a)) == Save(s.(totalHours := b))
  {
  }

  /** The seeded day shift, 08:00 to 16:00, totals 8.00 hours. */
  lemma DayShiftHours(s: Schedule)
    requires s.startTime == At(8, 0, 0) && s.endTime == At(16, 0, 0)
    ensures CalculateTotalHours(s) == 800
  {
    assert MinutesBetween(s.startTime, s.endTime) == 60 * 8;
    HundredthsOfWholeHours(8);
  }

  /**
   * The seeded night shift, 16:00 to 00:00: both times fall on the same day,
   * so the stored total is 16.00 hours, not the 8.0 the seeder supplies.
   */
  lemma NightShiftHours(s: Schedule)
    requires s.startTime == 16 * 3600 && s.endTime == 0 && s.totalHours == 800
    ensures Save(s).totalHours == 1600
  {
    assert MinutesBetween(s.startTime, s.endTime) == 60 * 16;
    HundredthsOfWholeHours(16);
  }
}
