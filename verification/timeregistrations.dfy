/**
 * The time registration endpoints: listing, creating, showing and editing
 * registrations, and clocking in and out. Each takes the table and returns
 * the table afterwards together with the reply.
 */
module RegistrationApi {
  import opened Wrappers
  import opened Clock
  import opened Calendar
  import opened Rows
  import opened Sorting
  import opened Roles
  import opened Registrations
  import opened Overlap
  import opened Clocking

  const OverlapMessage: string := "Time registration overlaps with existing registration"

  /** A reply: success with the record, a 422 naming a record, or a refusal with a message. */
  datatype Outcome =
    | Done(status: nat, registration: Registration)
    | Conflict(message: string, registration: Registration)
    | Refused(status: nat, message: string)

  /** The HTTP status of a reply. */
  function StatusCode(o: Outcome): nat
  {
    match o
    case Done(status, _) => status
    case Conflict(_, _) => 422
    case Refused(status, _) => status
  }

  // ---------------------------------------------------------------------------
  // index

  /** The filters of the listing request. */
  datatype IndexQuery = IndexQuery(userId: Option<nat>, startDate: Option<Day>, endDate: Option<Day>, date: Option<Day>, status: Option<string>)

  /** The statuses the requests accept (`in:pending,approved,rejected`). */
  predicate KnownStatus(s: string)
  {
    s == "pending" || s == "approved" || s == "rejected"
  }

  /**
   * What the listing request's validation accepts. Every rule there is
   * `sometimes`, so the rules of a key that is not sent are skipped,
   * `required_with` included: only a sent pair of bounds must be ordered
   * (`after_or_equal:start_date`) and a sent status must be known.
   */
  predicate ValidIndexQuery(q: IndexQuery)
  {
    (q.startDate.Some? && q.endDate.Some? ==> q.startDate.value <= q.endDate.value)
    && (q.status.Some? ==> KnownStatus(q.status.value))
  }

  /**
   * The rows the listing keeps: a plain user's own rows, or for admins and
   * managers the requested user's; the date range when both ends are given,
   * else the single date; the status when given.
   */
  predicate Listed(caller: User, q: IndexQuery, r: Registration)
  {
    (if !IsSupervisor(caller) then r.userId == caller.id else q.userId.Some? ==> r.userId == q.userId.value)
    && (if q.startDate.Some? && q.endDate.Some? then q.startDate.value <= r.date <= q.endDate.value
        else q.date.Some? ==> r.date == q.date.value)
    && (q.status.Some? ==> r.status == q.status.value)
  }

  /** `index`, before pagination: 422 (None) for a query validation refuses, else the listed rows, newest first. */
  function Index(store: seq<Registration>, caller: User, q: IndexQuery): (rows: Option<seq<Registration>>)
    ensures rows.None? <==> !ValidIndexQuery(q)
    ensures rows.Some? ==> forall x :: x in rows.value <==> x in store && Listed(caller, q, x)
    ensures rows.Some? ==> multiset(rows.value) == multiset(Filter(store, x => Listed(caller, q, x)))
    ensures rows.Some? ==> SortedBy(rows.value, NewestFirst)
  {
    if !ValidIndexQuery(q) then None else Some(SortBy(Filter(store, x => Listed(caller, q, x)), NewestFirst))
  }

  /** Plain users only ever see their own registrations, whatever they ask for. */
  lemma IndexShowsOwnRows(store: seq<Registration>, caller: User, q: IndexQuery)
    requires !IsSupervisor(caller)
    ensures Index(store, caller, q).Some? ==> forall x :: x in Index(store, caller, q).value ==> x.userId == caller.id
  {
  }

  /** In the listing a later date comes first, and on the same date a later clock-in. */
  lemma IndexNewestFirst(store: seq<Registration>, caller: User, q: IndexQuery, i: nat, j: nat)
    requires Index(store, caller, q).Some? && i < j < |Index(store, caller, q).value|
    ensures NewestBefore(Index(store, caller, q).value[i], Index(store, caller, q).value[j])
  {
    var rows := Index(store, caller, q).value;
    assert KeyLeq(NewestFirst(rows[i]), NewestFirst(rows[j]));
    NewestFirstOrder(rows[i], rows[j]);
  }

  /**
   * A start_date sent without an end_date passes validation and is then
   * ignored: the listing is the one of the same query without it.
   */
  lemma OneSidedRangeIgnored(store: seq<Registration>, caller: User, q: IndexQuery)
    requires q.startDate.Some? && q.endDate.None?
    ensures Index(store, caller, q) == Index(store, caller, q.(startDate := None))
  {
    var q' := q.(startDate := None);
    FilterCongruent(store, x => Listed(caller, q, x), x => Listed(caller, q', x));
  }

  /** The caller's own registrations: the only rows `recent` looks at. */
  predicate OwnRow(caller: User, r: Registration)
  {
    r.userId == caller.id
  }

  /**
   * `recent`, before each row is formatted: the caller's own registrations,
   * newest first, at most `limit` of them (5 by default); none of the own
   * rows left out is newer than a row kept.
   */
  function Recent(store: seq<Registration>, caller: User, limit: Option<nat>): (rows: seq<Registration>)
    ensures |rows| == if limit.GetOr(5) < |Filter(store, x => OwnRow(caller, x))| then limit.GetOr(5)
                      else |Filter(store, x => OwnRow(caller, x))|
    ensures forall x :: x in rows ==> x in store && x.userId == caller.id
    ensures SortedBy(rows, NewestFirst)
    ensures forall x, y :: x in store && x.userId == caller.id && x !in rows && y in rows ==> KeyLeq(NewestFirst(y), NewestFirst(x))
  {
    var mine := Filter(store, x => OwnRow(caller, x));
    var own := SortBy(mine, NewestFirst);
    assert forall x :: x in own <==> x in store && x.userId == caller.id by {
      forall x
        ensures x in own <==> x in store && x.userId == caller.id
      {
        assert x in own <==> x in multiset(own);
        assert x in mine <==> x in multiset(mine);
      }
    }
    TakeSorted(own, NewestFirst, limit.GetOr(5));
    Take(own, limit.GetOr(5))
  }

  // ---------------------------------------------------------------------------
  // store and show

  /** The validated body of a creation request; clock-out, when sent, is after clock-in. */
  datatype StoreRequest = StoreRequest(
    userId: Option<nat>, date: Day, clockIn: Time, clockOut: Option<Time>,
    latitude: Option<int>, longitude: Option<int>, notes: Option<string>)

  /** The caller may create for `target`: it is themselves, or they are an admin or manager. */
  predicate MayCreateFor(caller: User, target: nat)
  {
    target == caller.id || IsSupervisor(caller)
  }

  /**
   * `store`: refuses to create for another user unless the caller is an admin
   * or manager; reports what the overlap check (in the given form) finds with
   * 422; otherwise adds one pending registration under the next id. The
   * controller as written runs `AsWritten`.
   */
  function StoreRegistration(form: CheckForm, store: seq<Registration>, caller: User, req: StoreRequest): (result: (seq<Registration>, Outcome))
    requires req.clockOut.Some? ==> req.clockIn < req.clockOut.value
    ensures var target := req.userId.GetOr(caller.id);
            !MayCreateFor(caller, target) ==> result == (store, Refused(403, "Unauthorized"))
    ensures var target := req.userId.GetOr(caller.id);
            MayCreateFor(caller, target) ==>
              (result.1.Conflict? <==> CheckOverlap(form, store, target, req.date, req.clockIn, req.clockOut, None).Some?)
    ensures result.1.Conflict? ==>
            result.0 == store && result.1.message == OverlapMessage && result.1.registration in store
            && CheckOverlap(form, store, req.userId.GetOr(caller.id), req.date, req.clockIn, req.clockOut, None) == Some(result.1.registration)
    ensures result.1.Done? <==>
            MayCreateFor(caller, req.userId.GetOr(caller.id))
            && CheckOverlap(form, store, req.userId.GetOr(caller.id), req.date, req.clockIn, req.clockOut, None).None?
    ensures result.1.Done? ==>
            var created := result.1.registration;
            result.1.status == 201 && result.0 == store + [created] && IdsBelow(store, created.id)
            && created.userId == req.userId.GetOr(caller.id) && created.date == req.date
            && created.clockIn == req.clockIn && created.clockOut == req.clockOut
            && created.latitude == req.latitude && created.longitude == req.longitude && created.notes == req.notes
            && created.status == "pending" && HoursConsistent(created)
    ensures result.0 == store || result.1.Done?
  {
    var target := req.userId.GetOr(caller.id);
    if !MayCreateFor(caller, target) then (store, Refused(403, "Unauthorized"))
    else
      var overlapping := CheckOverlap(form, store, target, req.date, req.clockIn, req.clockOut, None);
      if overlapping.Some? then
        assert overlapping.value in store;
        (store, Conflict(OverlapMessage, overlapping.value))
      else
        var created := Save(Registration(NextId(store), target, req.date, req.clockIn, req.clockOut, None,
                                         req.latitude, req.longitude, req.notes, "pending"));
        (store + [created], Done(201, created))
  }

  /**
   * A closed registration created by `store`, in either form of the check,
   * clashes with none of its siblings: the code's check reports at least
   * what the intended one does.
   */
  lemma StoreAddsNoClash(form: CheckForm, store: seq<Registration>, caller: User, req: StoreRequest)
    requires req.clockOut.Some? ==> req.clockIn < req.clockOut.value
    ensures var (after, outcome) := StoreRegistration(form, store, caller, req);
            outcome.Done? && req.clockOut.Some? ==>
              forall x :: x in store && x.userId == outcome.registration.userId && x.date == req.date
                ==> !Clashes(x, req.clockIn, req.clockOut.value)
  {
    var (after, outcome) := StoreRegistration(form, store, caller, req);
    if outcome.Done? && req.clockOut.Some? {
      var target := req.userId.GetOr(caller.id);
      AsWrittenReportsIntendedConflicts(store, target, req.date, req.clockIn, req.clockOut.value, None);
      assert FindOverlap(store, target, req.date, req.clockIn, req.clockOut, None).None?;
      forall x | x in store && x.userId == target && x.date == req.date
        ensures !Clashes(x, req.clockIn, req.clockOut.value)
      {
        assert InScope(x, target, req.date, None);
      }
    }
  }

  /** `store`, in either form of the check, never gives a user a second open registration on a date. */
  lemma StoreKeepsOneOpenPerDay(form: CheckForm, store: seq<Registration>, caller: User, req: StoreRequest)
    requires req.clockOut.Some? ==> req.clockIn < req.clockOut.value
    requires OneOpenPerDay(store)
    ensures OneOpenPerDay(StoreRegistration(form, store, caller, req).0)
  {
    var (after, outcome) := StoreRegistration(form, store, caller, req);
    if outcome.Done? && req.clockOut.None? {
      var created := outcome.registration;
      forall x | x in store && x.userId == created.userId && x.date == created.date
        ensures !IsOpen(x)
      {
        assert InScope(x, created.userId, created.date, None);
      }
      assert forall i :: 0 <= i < |store| ==> after[i] == store[i] && store[i] in store;
    }
  }

  /**
   * As written, the unscoped `orWhere` groups let a registration of another
   * user, on any date, refuse a creation: one covering the new clock-out is
   * enough. The intended check creates it when no row of the table belongs
   * to the caller.
   */
  lemma StoreRefusedByOtherUsersRow(store: seq<Registration>, caller: User, req: StoreRequest, other: Registration)
    requires req.userId.None? && req.clockOut.Some? && req.clockIn < req.clockOut.value
    requires other in store && other.userId != caller.id && Covers(other, req.clockOut.value)
    ensures StoreRegistration(AsWritten, store, caller, req).1.Conflict?
    ensures (forall x :: x in store ==> x.userId != caller.id) ==> StoreRegistration(Intended, store, caller, req).1.Done?
  {
    assert EscapedClash(other, caller.id, req.date, None, req.clockIn, req.clockOut.value);
  }

  /** The registration with the given id, as route model binding finds it. */
  function RegistrationById(store: seq<Registration>, id: nat): (r: Option<Registration>)
    ensures r.Some? ==> r.value in store && r.value.id == id
    ensures r.None? <==> forall x :: x in store ==> x.id != id
  {
    First(store, (x: Registration) => x.id == id)
  }

  /** The caller may see or edit `r`: they own it, or they are an admin or manager. */
  predicate MayAccess(caller: User, r: Registration)
  {
    r.userId == caller.id || IsSupervisor(caller)
  }

  /** `show`: 404 for an unknown id; 403 unless the caller owns the registration or is an admin or manager. */
  function Show(store: seq<Registration>, caller: User, id: nat): (o: Outcome)
    ensures RegistrationById(store, id).None? <==> o == Refused(404, "Not Found")
    ensures o == Refused(403, "Unauthorized") <==> RegistrationById(store, id).Some? && !MayAccess(caller, RegistrationById(store, id).value)
    ensures RegistrationById(store, id).Some? && MayAccess(caller, RegistrationById(store, id).value)
            ==> o == Done(200, RegistrationById(store, id).value)
    ensures o.Done? ==> o.registration in store && o.registration.id == id
  {
    match RegistrationById(store, id)
    case None => Refused(404, "Not Found")
    case Some(r) =>
      if !MayAccess(caller, r) then Refused(403, "Unauthorized") else Done(200, r)
  }

  // ---------------------------------------------------------------------------
  // update

  /**
   * The body of an edit request. Every sent key is mass-assigned, including
   * the unvalidated user_id and total_hours.
   */
  datatype UpdateRequest = UpdateRequest(
    userId: Option<nat>, date: Option<Day>, clockIn: Option<Time>, clockOut: Field<Time>,
    totalHours: Field<nat>, latitude: Field<int>, longitude: Field<int>, notes: Field<string>,
    status: Option<string>)

  /**
   * What the edit request's FormRequest lets through to the controller: a
   * clock-out sent with a clock-in is after it, and a sent status is known.
   */
  predicate ValidUpdateRequest(req: UpdateRequest)
  {
    (req.clockIn.Some? && req.clockOut.Present? ==> req.clockIn.value < req.clockOut.value)
    && (req.status.Some? ==> KnownStatus(req.status.value))
  }

  /** `$timeRegistration->update($request->all())` before `save`: every sent key overwrites its column. */
  function Merge(reg: Registration, req: UpdateRequest): Registration
  {
    reg.(userId := req.userId.GetOr(reg.userId), date := req.date.GetOr(reg.date),
         clockIn := req.clockIn.GetOr(reg.clockIn), clockOut := req.clockOut.Assign(reg.clockOut),
         totalHours := req.totalHours.Assign(reg.totalHours), latitude := req.latitude.Assign(reg.latitude),
         longitude := req.longitude.Assign(reg.longitude), notes := req.notes.Assign(reg.notes),
         status := req.status.GetOr(reg.status))
  }

  /** The edit touches the date or the times, so the overlap check runs. */
  predicate MovesInterval(req: UpdateRequest)
  {
    req.date.Some? || req.clockIn.Some? || req.clockOut.Sent()
  }

  /** The caller passes both 403 guards: they may access the record, and only a supervisor sends a status. */
  predicate EditAllowed(caller: User, reg: Registration, req: UpdateRequest)
  {
    MayAccess(caller, reg) && (req.status.Some? ==> IsSupervisor(caller))
  }

  /**
   * The overlap check the edit runs, given each value from the request when
   * sent, else the stored one; a clock-out sent as null falls back to the
   * stored clock-out.
   */
  function CheckedOverlap(form: CheckForm, store: seq<Registration>, reg: Registration, req: UpdateRequest): Option<Registration>
  {
    CheckOverlap(form, store, reg.userId, req.date.GetOr(reg.date), req.clockIn.GetOr(reg.clockIn),
                 req.clockOut.OrElse(reg.clockOut), Some(reg.id))
  }

  /** The edit is refused with 422: it moves the interval and the check finds a registration. */
  predicate EditConflicts(form: CheckForm, store: seq<Registration>, reg: Registration, req: UpdateRequest)
  {
    MovesInterval(req) && CheckedOverlap(form, store, reg, req).Some?
  }

  /**
   * `update` of a stored registration: 403 for a non-owner who is neither
   * admin nor manager, 403 when such a caller sends a status, 422 with what
   * the overlap check (in the given form) finds when the interval is moved,
   * and otherwise the merged and saved registration written back in place.
   * The controller as written runs `AsWritten`.
   */
  function Update(form: CheckForm, store: seq<Registration>, caller: User, reg: Registration, req: UpdateRequest)
    : (result: (seq<Registration>, Outcome))
    requires ValidUpdateRequest(req)
    ensures !MayAccess(caller, reg) ==> result == (store, Refused(403, "Unauthorized"))
    ensures MayAccess(caller, reg) && !IsSupervisor(caller) && req.status.Some?
            ==> result == (store, Refused(403, "Unauthorized to change status"))
    ensures EditAllowed(caller, reg, req) ==> (result.1.Conflict? <==> EditConflicts(form, store, reg, req))
    ensures result.1.Conflict? ==>
            result.0 == store && result.1.message == OverlapMessage
            && CheckedOverlap(form, store, reg, req) == Some(result.1.registration)
    ensures result.1.Done? <==> EditAllowed(caller, reg, req) && !EditConflicts(form, store, reg, req)
    ensures result.1.Done? ==>
            var saved := result.1.registration;
            result.1.status == 200 && result.0 == UpdateRow(store, saved) && saved.id == reg.id
            && saved.userId == req.userId.GetOr(reg.userId)
            && saved.date == req.date.GetOr(reg.date) && saved.clockIn == req.clockIn.GetOr(reg.clockIn)
            && saved.clockOut == req.clockOut.Assign(reg.clockOut)
            && saved.latitude == req.latitude.Assign(reg.latitude) && saved.longitude == req.longitude.Assign(reg.longitude)
            && saved.notes == req.notes.Assign(reg.notes) && saved.status == req.status.GetOr(reg.status)
            && saved.totalHours == (if IsOpen(saved) then req.totalHours.Assign(reg.totalHours) else CalculateTotalHours(saved))
    ensures result.0 == store || result.1.Done?
  {
    if !MayAccess(caller, reg) then (store, Refused(403, "Unauthorized"))
    else if req.status.Some? && !IsSupervisor(caller) then (store, Refused(403, "Unauthorized to change status"))
    else
      var overlapping := if MovesInterval(req) then CheckedOverlap(form, store, reg, req) else None;
      if overlapping.Some? then (store, Conflict(OverlapMessage, overlapping.value))
      else
        var saved := Save(Merge(reg, req));
        (UpdateRow(store, saved), Done(200, saved))
  }

  /** `update` by route: an unknown id is 404, a known one is edited as `Update` states. */
  function UpdateById(form: CheckForm, store: seq<Registration>, caller: User, id: nat, req: UpdateRequest)
    : (result: (seq<Registration>, Outcome))
    requires ValidUpdateRequest(req)
    ensures RegistrationById(store, id).None? ==> result == (store, Refused(404, "Not Found"))
    ensures RegistrationById(store, id).Some? ==> result == Update(form, store, caller, RegistrationById(store, id).value, req)
  {
    match RegistrationById(store, id)
    case None => (store, Refused(404, "Not Found"))
    case Some(reg) => Update(form, store, caller, reg, req)
  }

  /** Editing a lone 09:00-12:00 registration to 10:00-13:00 succeeds in both forms and stores 3.00 hours. */
  lemma EditWithValidData(form: CheckForm, r: Registration, caller: User)
    requires r.id != 0 && r.userId == caller.id
    requires r.clockIn == 9 * 3600 && r.clockOut == Some(12 * 3600)
    ensures var req := UpdateRequest(None, None, Some(10 * 3600), Present(13 * 3600), Missing, Missing, Missing, Missing, None);
            var (after, outcome) := Update(form, [r], caller, r, req);
            outcome.Done? && outcome.registration.clockIn == 10 * 3600
            && outcome.registration.clockOut == Some(13 * 3600) && outcome.registration.totalHours == Some(300)
  {
    var req := UpdateRequest(None, None, Some(10 * 3600), Present(13 * 3600), Missing, Missing, Missing, Missing, None);
    EditLoneRegistration(r);
    assert !EscapedClash(r, r.userId, r.date, Some(r.id), 10 * 3600, 13 * 3600);
    TenToOneIsThreeHours(Merge(r, req));
  }

  /**
   * Editing 09:00-12:00 to 09:00-14:00 beside 13:00-17:00 is refused with
   * 422 and changes nothing. As written the reply names the edited
   * registration itself; the intended check names the 13:00 registration.
   */
  lemma EditWithOverlappingData(first: Registration, second: Registration, caller: User)
    requires first.id != 0 && first.id != second.id && first.userId == caller.id
    requires first.userId == second.userId && first.date == second.date
    requires first.clockIn == 9 * 3600 && first.clockOut == Some(12 * 3600)
    requires second.clockIn == 13 * 3600 && second.clockOut == Some(17 * 3600)
    ensures var req := UpdateRequest(None, None, Some(9 * 3600), Present(14 * 3600), Missing, Missing, Missing, Missing, None);
            Update(AsWritten, [first, second], caller, first, req) == ([first, second], Conflict(OverlapMessage, first))
            && Update(Intended, [first, second], caller, first, req) == ([first, second], Conflict(OverlapMessage, second))
  {
    EditIntoNeighbourReported(first, second);
  }

  /**
   * As written, an allowed edit of a closed registration whose new clock-out
   * falls within the stored interval (shortening it, or resending its own
   * times) is refused with 422, the check matching the registration itself.
   * The intended check accepts the same edit when the registration has no
   * siblings.
   */
  lemma EditRefusedByItself(store: seq<Registration>, caller: User, reg: Registration, clockIn: Time, clockOut: Time)
    requires reg in store && reg.id != 0 && MayAccess(caller, reg)
    requires clockIn < clockOut && Covers(reg, clockOut)
    ensures var req := UpdateRequest(None, None, Some(clockIn), Present(clockOut), Missing, Missing, Missing, Missing, None);
            Update(AsWritten, store, caller, reg, req).1.Conflict?
            && Update(Intended, [reg], caller, reg, req).1.Done?
  {
    EditMatchesItself(store, reg, reg.date, clockIn, clockOut);
  }

  // ---------------------------------------------------------------------------
  // clockIn and clockOut

  /**
   * `clockIn`: 422 with the active registration when the caller is already
   * clocked in today; otherwise clocks them in and replies 201.
   */
  function ClockIn(store: seq<Registration>, caller: User, today: Day, now: Time, latitude: Option<int>, longitude: Option<int>, generated: (int, int))
    : (result: (seq<Registration>, Outcome))
    ensures result.1.Conflict? <==> ActiveRegistration(store, caller.id, today).Some?
    ensures result.1.Conflict? ==>
            result.0 == store && result.1.message == "You are already clocked in"
            && result.1.registration == ActiveRegistration(store, caller.id, today).value
    ensures result.1.Done? ==>
            result.1.status == 201 && result.0 == store + [result.1.registration]
            && ActiveOn(result.1.registration, caller.id, today) && result.1.registration.clockIn == now
    ensures result.1.Conflict? || result.1.Done?
  {
    var active := ActiveRegistration(store, caller.id, today);
    if active.Some? then (store, Conflict("You are already clocked in", active.value))
    else
      var (after, created) := ClockInUser(store, caller.id, today, now, latitude, longitude, generated);
      (after, Done(201, created))
  }

  /** Clocking in never gives a user a second open registration on a date. */
  lemma ClockInKeepsOneOpenPerDay(store: seq<Registration>, caller: User, today: Day, now: Time, latitude: Option<int>, longitude: Option<int>, generated: (int, int))
    requires OneOpenPerDay(store)
    ensures OneOpenPerDay(ClockIn(store, caller, today, now, latitude, longitude, generated).0)
  {
    var (after, outcome) := ClockIn(store, caller, today, now, latitude, longitude, generated);
    if outcome.Done? {
      assert forall i :: 0 <= i < |store| ==> after[i] == store[i] && store[i] in store;
    }
  }

  /** `clockOut`: 404 when the caller has no active registration today; otherwise closes it and replies 200. */
  function ClockOut(store: seq<Registration>, caller: User, today: Day, now: Time): (result: (seq<Registration>, Outcome))
    ensures ActiveRegistration(store, caller.id, today).None? <==> result == (store, Refused(404, "No active clock-in found"))
    ensures result.1.Done? <==> ActiveRegistration(store, caller.id, today).Some?
    ensures result.1.Done? ==>
            var active := ActiveRegistration(store, caller.id, today).value;
            var closed := result.1.registration;
            result.1.status == 200 && closed == active.(clockOut := Some(now), totalHours := closed.totalHours)
            && HoursConsistent(closed) && result.0 == UpdateRow(store, closed)
  {
    var active := ActiveRegistration(store, caller.id, today);
    if active.None? then (store, Refused(404, "No active clock-in found"))
    else
      var (after, closed) := ClockOutUser(store, active.value, now);
      (after, Done(200, closed))
  }

  /** Clocking out only closes registrations, so it keeps at most one open per user and date. */
  lemma ClockOutKeepsOneOpenPerDay(store: seq<Registration>, caller: User, today: Day, now: Time)
    requires OneOpenPerDay(store)
    ensures OneOpenPerDay(ClockOut(store, caller, today, now).0)
  {
    var (after, outcome) := ClockOut(store, caller, today, now);
    if outcome.Done? {
      assert forall i :: 0 <= i < |after| && IsOpen(after[i]) ==> after[i] == store[i];
    }
  }

  /**
   * `update` with clock_out sent as null beside an open registration. The
   * check is given the stored clock-out (`??` skips the null), while the
   * stored value becomes null. As written the check's unscoped `orWhere`
   * matches the registration itself, so the edit is refused; the intended
   * check lets it through, and the user is left with two open registrations
   * that day.
   */
  lemma NullClockOutEdit(open: Registration, closed: Registration, caller: User)
    requires open.id == 1 && closed.id == 2 && open.userId == caller.id && closed.userId == caller.id
    requires open.date == closed.date && IsOpen(open)
    requires closed.clockIn == 13 * 3600 && closed.clockOut == Some(17 * 3600)
    ensures OneOpenPerDay([open, closed])
    ensures var req := UpdateRequest(None, None, None, Null, Missing, Missing, Missing, Missing, None);
            Update(AsWritten, [open, closed], caller, closed, req) == ([open, closed], Conflict(OverlapMessage, closed))
    ensures var req := UpdateRequest(None, None, None, Null, Missing, Missing, Missing, Missing, None);
            var (after, outcome) := Update(Intended, [open, closed], caller, closed, req);
            outcome.Done? && !OneOpenPerDay(after)
  {
    var req := UpdateRequest(None, None, None, Null, Missing, Missing, Missing, Missing, None);
    assert EscapedClash(closed, caller.id, closed.date, Some(2), 13 * 3600, 17 * 3600);
    assert !EscapedClash(open, caller.id, closed.date, Some(2), 13 * 3600, 17 * 3600);
    assert !Clashes(open, 13 * 3600, 17 * 3600);
    assert CheckedOverlap(Intended, [open, closed], closed, req).None?;
    var (after, outcome) := Update(Intended, [open, closed], caller, closed, req);
    assert after[0] == open && after[1] == outcome.registration;
  }
}
