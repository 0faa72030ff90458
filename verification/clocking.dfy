/**
 * Clocking in and out and the clock-in status: the per-user, per-day state
 * machine in which a registration is created open and later closed.
 */
module Clocking {
  import opened Wrappers
  import opened Clock
  import opened Calendar
  import opened Rows
  import opened Registrations
  import opened Durations

  /** An open registration of the user dated `today`. */
  predicate ActiveOn(r: Registration, userId: nat, today: Day)
  {
    r.userId == userId && r.date == today && IsOpen(r)
  }

  /** No user has two open registrations on the same date. */
  predicate OneOpenPerDay(store: seq<Registration>)
  {
    forall i, j :: 0 <= i < j < |store| && IsOpen(store[i]) && IsOpen(store[j]) ==>
      store[i].userId != store[j].userId || store[i].date != store[j].date
  }

  /** `getUserActiveTimeRegistration`: the user's first open registration of today. */
  function ActiveRegistration(store: seq<Registration>, userId: nat, today: Day): (r: Option<Registration>)
    ensures r.Some? ==> r.value in store && ActiveOn(r.value, userId, today)
    ensures r.None? <==> forall x :: x in store ==> !ActiveOn(x, userId, today)
  {
    First(store, x => ActiveOn(x, userId, today))
  }

  /**
   * The coordinates stored at clock-in: the supplied pair when both values
   * are present, otherwise the pair the random generator produced.
   */
  function ChosenCoordinates(latitude: Option<int>, longitude: Option<int>, generated: (int, int)): (c: (int, int))
    ensures latitude.Some? && longitude.Some? ==> c == (latitude.value, longitude.value)
    ensures latitude.None? || longitude.None? ==> c == generated
  {
    if latitude.Some? && longitude.Some? then (latitude.value, longitude.value) else generated
  }

  /**
   * `clockInUser`: appends one open, pending registration for the user dated
   * today and starting now, under the next id.
   */
  function ClockInUser(store: seq<Registration>, userId: nat, today: Day, now: Time, latitude: Option<int>, longitude: Option<int>, generated: (int, int))
    : (result: (seq<Registration>, Registration))
    ensures result.0 == store + [result.1]
    ensures IdsBelow(store, result.1.id)
    ensures ActiveOn(result.1, userId, today) && result.1.clockIn == now
    ensures result.1.status == "pending" && result.1.totalHours.None? && result.1.notes.None?
    ensures var c := ChosenCoordinates(latitude, longitude, generated);
            result.1.latitude == Some(c.0) && result.1.longitude == Some(c.1)
  {
    var c := ChosenCoordinates(latitude, longitude, generated);
    var created := Save(Registration(NextId(store), userId, today, now, None, None, Some(c.0), Some(c.1), None, "pending"));
    (store + [created], created)
  }

  /** After clocking in, the user has an active registration today; if they had none before, it is the new one. */
  lemma ClockInMakesActive(store: seq<Registration>, userId: nat, today: Day, now: Time, latitude: Option<int>, longitude: Option<int>, generated: (int, int))
    ensures var (after, created) := ClockInUser(store, userId, today, now, latitude, longitude, generated);
            ActiveRegistration(after, userId, today).Some?
            && (ActiveRegistration(store, userId, today).None? ==> ActiveRegistration(after, userId, today) == Some(created))
  {
    var (after, created) := ClockInUser(store, userId, today, now, latitude, longitude, generated);
    assert created in after;
    assert forall x :: x in after ==> x in store || x == created;
  }

  /**
   * `clockOutUser`: sets clock-out to now and stores the recomputed total.
   * The end coordinates it passes are not mass-assignable and are dropped,
   * so every other field is kept.
   */
  function ClockOutUser(store: seq<Registration>, reg: Registration, now: Time): (result: (seq<Registration>, Registration))
    ensures result.1.clockOut == Some(now) && HoursConsistent(result.1)
    ensures result.1 == reg.(clockOut := Some(now), totalHours := result.1.totalHours)
    ensures result.0 == UpdateRow(store, result.1)
  {
    var updated := Save(reg.(clockOut := Some(now)));
    var saved := Save(updated.(totalHours := CalculateTotalHours(updated)));
    (UpdateRow(store, saved), saved)
  }

  /** After clocking out, no active registration of the user today carries the closed registration's id. */
  lemma ClockOutEndsActive(store: seq<Registration>, reg: Registration, now: Time, userId: nat, today: Day)
    ensures var (after, closed) := ClockOutUser(store, reg, now);
            forall x :: x in after && ActiveOn(x, userId, today) ==> x.id != reg.id
    ensures var (after, closed) := ClockOutUser(store, reg, now);
            ActiveRegistration(after, userId, today) != Some(closed)
  {
  }

  /** The clock-in status payload. */
  datatype Status = Status(clockedIn: bool, clockInTime: Option<string>, duration: Option<string>, registration: Option<Registration>)

  /** The duration branch of the status: "{h}h {m}m" of the absolute minutes, for a closed registration. */
  function DurationOf(r: Registration): (d: Option<string>)
    ensures d.Some? <==> !IsOpen(r)
    ensures d.Some? ==> ReadHoursMinutes(d.value).Some?
    ensures d.Some? ==> var (h, m) := ReadHoursMinutes(d.value).value;
                        60 * h + m == MinutesBetween(r.clockIn, r.clockOut.value) && m < 60
  {
    if r.clockOut.Some? then Some(DurationText(MinutesBetween(r.clockIn, r.clockOut.value))) else None
  }

  /**
   * `getUserTimeRegistrationStatus`: clocked in exactly when an active
   * registration exists, with its clock-in as HH:MM:SS. The duration is only
   * computed for an active registration with a clock-out, which cannot
   * exist, so it is always absent.
   */
  function UserStatus(store: seq<Registration>, userId: nat, today: Day): (s: Status)
    ensures s.registration == ActiveRegistration(store, userId, today)
    ensures s.clockedIn <==> s.registration.Some?
    ensures s.clockInTime.Some? <==> s.clockedIn
    ensures s.clockedIn ==> ParseHms(s.clockInTime.value) == Some(s.registration.value.clockIn)
    ensures s.duration.None?
  {
    var active := ActiveRegistration(store, userId, today);
    var clockInTime := if active.Some? then Some(FormatHms(active.value.clockIn)) else None;
    assert active.Some? ==> ParseHms(FormatHms(active.value.clockIn)) == Some(active.value.clockIn) by {
      if active.Some? {
        ParseFormatHms(active.value.clockIn);
      }
    }
    var duration := if active.Some? then DurationOf(active.value) else None;
    Status(active.Some?, clockInTime, duration, active)
  }
}
