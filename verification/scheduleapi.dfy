/**
 * The schedule endpoints: listing, creating, showing, editing and deleting
 * schedules, looking one up by its date text, the current week, and the
 * generation of recurring schedules over a date range.
 */
module ScheduleApi {
  import opened Wrappers
  import opened Text
  import opened Clock
  import opened Calendar
  import opened Rows
  import opened Sorting
  import opened Roles
  import opened Schedules

  const Unauthorized: string := "Unauthorized"
  const InvalidDateMessage: string := "Invalid date format. Use YYYY-MM-DD"
  const NoScheduleMessage: string := "No schedule found for this date"

  /** A reply of the schedule endpoints. */
  datatype Reply =
    | Shown(status: nat, schedule: Schedule)
    | Listing(schedules: seq<Schedule>)
    | Generated(message: string, schedules: seq<Schedule>)
    | Deleted(message: string)
    | Refused(status: nat, message: string)
    | Invalid

  function ScheduleKey(s: Schedule): nat
  {
    s.id
  }

  /** The row holding `id`, as route-model binding finds it. */
  function ScheduleById(store: seq<Schedule>, id: nat): (r: Option<Schedule>)
    ensures r.Some? ==> r.value in store && r.value.id == id
    ensures r.None? <==> forall x :: x in store ==> x.id != id
  {
    First(store, (x: Schedule) => x.id == id)
  }

  // ---------------------------------------------------------------------------
  // index and the current week

  /** The filters of the listing request. */
  datatype IndexQuery = IndexQuery(userId: Option<nat>, startDate: Option<Day>, endDate: Option<Day>, date: Option<Day>, locationId: Option<nat>)

  /**
   * The rows the listing keeps: a plain user's own rows, or for admins and
   * managers the requested user's; the date range when both ends are given,
   * else the single date; the location when given.
   */
  predicate Listed(caller: User, q: IndexQuery, s: Schedule)
  {
    (if !IsSupervisor(caller) then s.userId == caller.id else q.userId.Some? ==> s.userId == q.userId.value)
    && (if q.startDate.Some? && q.endDate.Some? then q.startDate.value <= s.date <= q.endDate.value
        else q.date.Some? ==> s.date == q.date.value)
    && (q.locationId.Some? ==> s.locationId == q.locationId)
  }

  /** The order of schedule listings: date ascending, then start time ascending. */
  function EarliestFirst(s: Schedule): seq<int>
  {
    [s.date, s.startTime]
  }

  /** Key order on `EarliestFirst` is exactly date ascending, then start time ascending. */
  lemma EarliestFirstOrder(a: Schedule, b: Schedule)
    ensures KeyLeq(EarliestFirst(a), EarliestFirst(b)) <==> a.date < b.date || (a.date == b.date && a.startTime <= b.startTime)
  {
    var ka, kb := EarliestFirst(a), EarliestFirst(b);
    assert ka[1..] == [a.startTime as int] && kb[1..] == [b.startTime as int];
    assert ka[1..][1..] == [] && kb[1..][1..] == [];
    assert KeyLeq(ka[1..][1..], kb[1..][1..]);
    assert KeyLeq(ka[1..], kb[1..]) <==> a.startTime <= b.startTime;
  }

  /** `index`, before pagination: the listed rows, earliest first. */
  function Index(store: seq<Schedule>, caller: User, q: IndexQuery): (rows: seq<Schedule>)
    ensures forall x :: x in rows <==> x in store && Listed(caller, q, x)
    ensures multiset(rows) == multiset(Filter(store, x => Listed(caller, q, x)))
    ensures SortedBy(rows, EarliestFirst)
  {
    SortBy(Filter(store, x => Listed(caller, q, x)), EarliestFirst)
  }

  /** Plain users only ever see their own schedules, whatever they ask for. */
  lemma IndexShowsOwnSchedules(store: seq<Schedule>, caller: User, q: IndexQuery)
    requires !IsSupervisor(caller)
    ensures forall x :: x in Index(store, caller, q) ==> x.userId == caller.id
  {
  }

  /** Carbon's week: Monday to Sunday around `today`. */
  function WeekStart(today: Day): (monday: Day)
    ensures monday <= today < monday + 7
    ensures Weekday(monday) == 1
  {
    today - (Weekday(today) + 6) % 7
  }

  /** `getCurrentWeek`: the caller's schedules from this week's Monday to its Sunday, earliest first. */
  function CurrentWeek(store: seq<Schedule>, caller: User, today: Day): (rows: seq<Schedule>)
    ensures forall x :: x in rows <==> x in store && x.userId == caller.id && WeekStart(today) <= x.date <= WeekStart(today) + 6
    ensures SortedBy(rows, EarliestFirst)
  {
    var monday := WeekStart(today);
    SortBy(Filter(store, (x: Schedule) => x.userId == caller.id && monday <= x.date <= monday + 6), EarliestFirst)
  }

  /** Every schedule of the caller dated today is in the current week. */
  lemma CurrentWeekHoldsToday(store: seq<Schedule>, caller: User, today: Day, s: Schedule)
    requires s in store && s.userId == caller.id && s.date == today
    ensures s in CurrentWeek(store, caller, today)
  {
  }

  // ---------------------------------------------------------------------------
  // store, show, update, destroy

  /** The body of a creation request. */
  datatype CreateRequest = CreateRequest(
    userId: nat, date: Day, startTime: Time, endTime: Time, totalHours: Option<nat>,
    locationId: Option<nat>, isRecurring: Option<bool>, recurrencePattern: Option<string>)

  /**
   * `store`: only admins and managers create schedules, and the validator then
   * wants the end time after the start time (422). The new row takes the next
   * id and the request's fields; `save` then replaces any supplied total.
   */
  function StoreSchedule(store: seq<Schedule>, caller: User, req: CreateRequest): (result: (seq<Schedule>, Reply))
    ensures !IsSupervisor(caller) <==> result == (store, Refused(403, Unauthorized))
    ensures IsSupervisor(caller) && req.endTime <= req.startTime <==> result == (store, Invalid)
    ensures IsSupervisor(caller) && req.startTime < req.endTime ==>
            result.1.Shown? && result.1.status == 201 && result.0 == store + [result.1.schedule]
            && var s := result.1.schedule;
            (forall x :: x in store ==> x.id < s.id)
            && s.userId == req.userId && s.date == req.date && s.startTime == req.startTime && s.endTime == req.endTime
            && s.locationId == req.locationId && s.isRecurring == req.isRecurring.GetOr(false)
            && s.recurrencePattern == req.recurrencePattern
            && s.totalHours == CalculateTotalHours(s)
  {
    if !IsSupervisor(caller) then (store, Refused(403, Unauthorized))
    else if req.endTime <= req.startTime then (store, Invalid)
    else
      var created := Save(Schedule(NextKey(store, ScheduleKey), req.userId, req.date, req.startTime, req.endTime,
                                   req.totalHours.GetOr(0), req.locationId, req.isRecurring.GetOr(false), req.recurrencePattern));
      (store + [created], Shown(201, created))
  }

  /** `show`: 404 for an unknown id; the owner, admins and managers see it; anyone else gets 403. */
  function ShowSchedule(store: seq<Schedule>, caller: User, id: nat): (reply: Reply)
    ensures reply.Shown? <==> ScheduleById(store, id).Some? && (ScheduleById(store, id).value.userId == caller.id || IsSupervisor(caller))
    ensures reply.Shown? ==> reply.status == 200 && reply.schedule in store && reply.schedule.id == id
    ensures reply.Refused? ==> reply.status == if ScheduleById(store, id).None? then 404 else 403
  {
    match ScheduleById(store, id)
    case None => Refused(404, "Not Found")
    case Some(s) =>
      if s.userId != caller.id && !IsSupervisor(caller) then Refused(403, Unauthorized)
      else Shown(200, s)
  }

  /** The fields an edit may send; absent fields keep their stored values. */
  datatype EditRequest = EditRequest(
    userId: Option<nat>, date: Option<Day>, startTime: Option<Time>, endTime: Option<Time>,
    totalHours: Option<nat>, locationId: Field<nat>, isRecurring: Option<bool>, recurrencePattern: Field<string>)

  /** The request's fields written over the stored schedule. */
  function MergeSchedule(s: Schedule, req: EditRequest): Schedule
  {
    Schedule(s.id, req.userId.GetOr(s.userId), req.date.GetOr(s.date), req.startTime.GetOr(s.startTime),
             req.endTime.GetOr(s.endTime), req.totalHours.GetOr(s.totalHours), req.locationId.Assign(s.locationId),
             req.isRecurring.GetOr(s.isRecurring), req.recurrencePattern.Assign(s.recurrencePattern))
  }

  /** The edit validator's time rule: an end time sent with a start time is after it. */
  predicate ValidEditTimes(req: EditRequest)
  {
    req.startTime.Some? && req.endTime.Some? ==> req.startTime.value < req.endTime.value
  }

  /**
   * `update`: 404 for an unknown id, 403 unless the caller is an admin or a
   * manager, 422 for inverted times; otherwise the merged schedule is saved
   * in place, its total recomputed from its (possibly new) times.
   */
  function UpdateSchedule(store: seq<Schedule>, caller: User, id: nat, req: EditRequest): (result: (seq<Schedule>, Reply))
    ensures ScheduleById(store, id).None? ==> result == (store, Refused(404, "Not Found"))
    ensures ScheduleById(store, id).Some? && !IsSupervisor(caller) ==> result == (store, Refused(403, Unauthorized))
    ensures ScheduleById(store, id).Some? && IsSupervisor(caller) && !ValidEditTimes(req) ==> result == (store, Invalid)
    ensures result.1.Shown? <==> ScheduleById(store, id).Some? && IsSupervisor(caller) && ValidEditTimes(req)
    ensures result.1.Shown? ==>
            var stored := ScheduleById(store, id).value;
            var s := result.1.schedule;
            result.1.status == 200 && result.0 == ReplaceKeyed(store, ScheduleKey, s)
            && s.id == id && s.date == req.date.GetOr(stored.date)
            && s.startTime == req.startTime.GetOr(stored.startTime) && s.endTime == req.endTime.GetOr(stored.endTime)
            && s.userId == req.userId.GetOr(stored.userId)
            && s.locationId == req.locationId.Assign(stored.locationId)
            && s.isRecurring == req.isRecurring.GetOr(stored.isRecurring)
            && s.recurrencePattern == req.recurrencePattern.Assign(stored.recurrencePattern)
            && s.totalHours == CalculateTotalHours(s)
    ensures result.0 == store || result.1.Shown?
  {
    match ScheduleById(store, id)
    case None => (store, Refused(404, "Not Found"))
    case Some(s) =>
      if !IsSupervisor(caller) then (store, Refused(403, Unauthorized))
      else if !ValidEditTimes(req) then (store, Invalid)
      else
        var saved := Save(MergeSchedule(s, req));
        (ReplaceKeyed(store, ScheduleKey, saved), Shown(200, saved))
  }

  /** A total sent with an edit never reaches the table: `save` recomputes it. */
  lemma UpdateIgnoresSuppliedTotal(store: seq<Schedule>, caller: User, id: nat, req: EditRequest, a: nat, b: nat)
    ensures UpdateSchedule(store, caller, id, req.(totalHours := Some(a))) == UpdateSchedule(store, caller, id, req.(totalHours := Some(b)))
  {
  }

  /** `destroy`: 404 for an unknown id, 403 unless admin or manager; otherwise the row is gone. */
  function DestroySchedule(store: seq<Schedule>, caller: User, id: nat): (result: (seq<Schedule>, Reply))
    ensures ScheduleById(store, id).None? ==> result == (store, Refused(404, "Not Found"))
    ensures ScheduleById(store, id).Some? && !IsSupervisor(caller) ==> result == (store, Refused(403, Unauthorized))
    ensures result.1.Deleted? <==> ScheduleById(store, id).Some? && IsSupervisor(caller)
    ensures result.1.Deleted? ==>
            result.1.message == "Schedule deleted"
            && forall x :: x in result.0 <==> x in store && x.id != id
  {
    match ScheduleById(store, id)
    case None => (store, Refused(404, "Not Found"))
    case Some(_) =>
      if !IsSupervisor(caller) then (store, Refused(403, Unauthorized))
      else (Filter(store, (x: Schedule) => x.id != id), Deleted("Schedule deleted"))
  }

  /** Admins and managers alone change the schedules table. */
  lemma OnlySupervisorsChangeSchedules(store: seq<Schedule>, caller: User, id: nat, create: CreateRequest, edit: EditRequest)
    requires !IsSupervisor(caller)
    ensures StoreSchedule(store, caller, create).0 == store
    ensures UpdateSchedule(store, caller, id, edit).0 == store
    ensures DestroySchedule(store, caller, id).0 == store
    ensures StatusCode(StoreSchedule(store, caller, create).1) == 403
    ensures ScheduleById(store, id).Some? ==>
            StatusCode(UpdateSchedule(store, caller, id, edit).1) == 403 && StatusCode(DestroySchedule(store, caller, id).1) == 403
  {
  }

  /** The HTTP status of a reply. */
  function StatusCode(r: Reply): nat
  {
    match r
    case Shown(status, _) => status
    case Listing(_) => 200
    case Generated(_, _) => 201
    case Deleted(_) => 200
    case Refused(status, _) => status
    case Invalid => 422
  }

  // ---------------------------------------------------------------------------
  // getByDate

  /** The mock schedule served for today when none is stored: 08:00 to 17:00. */
  function TodayMock(caller: User, today: Day): Schedule
  {
    Schedule(2001, caller.id, today, At(8, 0, 0), At(17, 0, 0), 900, Some(1), true, Some("weekly"))
  }

  /** The mock schedule served for tomorrow when none is stored: 09:00 to 18:00. */
  function TomorrowMock(caller: User, today: Day): Schedule
  {
    Schedule(2002, caller.id, today + 1, At(9, 0, 0), At(18, 0, 0), 900, Some(1), true, Some("weekly"))
  }

  /** A stored schedule of the caller whose date renders as `date`. */
  predicate StoredOn(caller: User, date: string, x: Schedule)
  {
    x.userId == caller.id && FormatDay(x.date) == date
  }

  /**
   * `getByDate`: 422 unless the text has the `YYYY-MM-DD` shape; the caller's
   * first stored schedule with that date; else a mock for today or tomorrow;
   * else 404.
   */
  function GetByDate(store: seq<Schedule>, caller: User, date: string, today: Day): (reply: Reply)
    ensures reply == Refused(422, InvalidDateMessage) <==> !DateShape(date)
    ensures reply.Shown? ==> reply.status == 200 && reply.schedule.userId == caller.id && FormatDay(reply.schedule.date) == date
    ensures DateShape(date) && (exists x :: x in store && StoredOn(caller, date, x)) ==> reply.Shown? && reply.schedule in store
    ensures reply.Shown? && reply.schedule !in store ==>
            reply.schedule == TodayMock(caller, today) || reply.schedule == TomorrowMock(caller, today)
    ensures reply == Refused(404, NoScheduleMessage) <==>
            DateShape(date) && (forall x :: x in store ==> !StoredOn(caller, date, x))
            && date != FormatDay(today) && date != FormatDay(today + 1)
    ensures reply.Shown? || reply.Refused?
  {
    if !DateShape(date) then Refused(422, InvalidDateMessage)
    else
      match First(store, x => StoredOn(caller, date, x))
      case Some(s) => Shown(200, s)
      case None =>
        if date == FormatDay(today) then Shown(200, TodayMock(caller, today))
        else if date == FormatDay(today + 1) then Shown(200, TomorrowMock(caller, today))
        else Refused(404, NoScheduleMessage)
  }

  /** The mocks' fixed total of 9.0 hours agrees with their times. */
  lemma MocksAreNineHours(caller: User, today: Day)
    ensures TodayMock(caller, today).totalHours == CalculateTotalHours(TodayMock(caller, today)) == 900
    ensures TomorrowMock(caller, today).totalHours == CalculateTotalHours(TomorrowMock(caller, today)) == 900
  {
    assert MinutesBetween(At(8, 0, 0), At(17, 0, 0)) == 60 * 9;
    assert MinutesBetween(At(9, 0, 0), At(18, 0, 0)) == 60 * 9;
    HundredthsOfWholeHours(9);
  }

  /** No day renders as '2025-99-99': month 99 does not exist. */
  lemma NoDayInMonthNinetyNine(z: Day)
    ensures FormatDay(z) != "2025-99-99"
  {
    var c := CivilFromDays(z);
    var y := FormatYear(c.year);
    var s := FormatDay(z);
    assert s == y + "-" + Pad2(c.month) + "-" + Pad2(c.day);
    if |y| == 4 {
      assert s[5..7] == Pad2(c.month);
      assert "2025-99-99"[5..7] == "99";
      assert ParseDigits("99") == 99;
    } else {
      assert |s| != 10;
    }
  }

  /**
   * The shape check admits texts that are no calendar date: '2025-99-99'
   * passes it and, with nothing stored for it, ends in 404 whatever today is.
   */
  lemma NonCalendarDatePassesShape(store: seq<Schedule>, caller: User, today: Day)
    requires forall x :: x in store ==> !StoredOn(caller, "2025-99-99", x)
    ensures DateShape("2025-99-99")
    ensures GetByDate(store, caller, "2025-99-99", today) == Refused(404, NoScheduleMessage)
  {
    NonCalendarShape();
    NoDayInMonthNinetyNine(today);
    NoDayInMonthNinetyNine(today + 1);
  }

  lemma NonCalendarShape()
    ensures DateShape("2025-99-99")
  {
    var s := "2025-99-99";
    assert s[0..4] == "2025" && s[5..7] == "99" && s[8..10] == "99";
    assert AllDigits("2025") && AllDigits("99");
  }

  // ---------------------------------------------------------------------------
  // generateRecurring

  /** The validated body of a `generateRecurring` request. */
  datatype RecurringRequest = RecurringRequest(
    userId: nat, startDate: Day, endDate: Day, daysOfWeek: seq<int>,
    startTime: Time, endTime: Time, locationId: Option<nat>)

  /**
   * What the validator of `generateRecurring` accepts: the end date after the
   * start date, the end time after the start time, a non-empty list of
   * weekdays (`required` refuses an empty array), each 0 to 6.
   */
  predicate ValidRecurring(req: RecurringRequest)
  {
    req.startDate < req.endDate && req.startTime < req.endTime && |req.daysOfWeek| > 0
    && forall i :: 0 <= i < |req.daysOfWeek| ==> 0 <= req.daysOfWeek[i] <= 6
  }

  /** The days the loop creates a schedule for: in the range, on a requested weekday (0 is Sunday). */
  predicate Selected(req: RecurringRequest, d: Day)
  {
    req.startDate <= d <= req.endDate && Weekday(d) as int in req.daysOfWeek
  }

  /** A generated schedule carries the request's user, times and location, recurring weekly. */
  predicate CopiesRequest(req: RecurringRequest, s: Schedule)
  {
    s.userId == req.userId && s.startTime == req.startTime && s.endTime == req.endTime
    && s.locationId == req.locationId && s.isRecurring && s.recurrencePattern == Some("weekly")
    && s.totalHours == CalculateTotalHours(s)
  }

  /** The schedule created for day `d` under key `id`. */
  function RecurringSchedule(id: nat, req: RecurringRequest, d: Day): Schedule
  {
    Save(Schedule(id, req.userId, d, req.startTime, req.endTime, 0, req.locationId, true, Some("weekly")))
  }

  /**
   * What the day loop has built when it reaches `current`: one schedule per
   * selected day before `current`, in increasing date order, each a copy of
   * the request under an id above every earlier one.
   */
  predicate CreatedBefore(store: seq<Schedule>, req: RecurringRequest, created: seq<Schedule>, current: Day)
  {
    (forall i :: 0 <= i < |created| ==>
       Selected(req, created[i].date) && created[i].date < current && CopiesRequest(req, created[i]))
    && (forall d :: req.startDate <= d < current && Selected(req, d) ==>
          exists i :: 0 <= i < |created| && created[i].date == d)
    && (forall i, j :: 0 <= i < j < |created| ==> created[i].date < created[j].date)
    && (forall i :: 0 <= i < |created| ==> forall x :: x in store + created[..i] ==> x.id < created[i].id)
  }

  /** A day that is not selected adds nothing and keeps the loop's account true one day later. */
  lemma SkipKeepsCreated(store: seq<Schedule>, req: RecurringRequest, created: seq<Schedule>, current: Day)
    requires CreatedBefore(store, req, created, current) && !Selected(req, current)
    ensures CreatedBefore(store, req, created, current + 1)
  {
  }

  /** A selected day appends its schedule under the next id and keeps the loop's account true one day later. */
  lemma AppendKeepsCreated(store: seq<Schedule>, req: RecurringRequest, created: seq<Schedule>, current: Day)
    requires CreatedBefore(store, req, created, current) && Selected(req, current)
    ensures CreatedBefore(store, req, created + [RecurringSchedule(NextKey(store + created, ScheduleKey), req, current)], current + 1)
  {
    var id := NextKey(store + created, ScheduleKey);
    var s := RecurringSchedule(id, req, current);
    RecurringScheduleShape(id, req, current);
    AppendKeepsOrder(req, created, s, current);
    AppendKeepsFreshIds(store, created, s);
    AppendCoversDay(req, created, s, current);
  }

  /** The schedule created for a day carries that day, the key it was given and the request's fields. */
  lemma RecurringScheduleShape(id: nat, req: RecurringRequest, d: Day)
    ensures var s := RecurringSchedule(id, req, d);
            s.id == id && s.date == d && CopiesRequest(req, s)
  {
  }

  /** Appending a copy for a selected day after all earlier days keeps the entries selected, copied and in date order. */
  lemma AppendKeepsOrder(req: RecurringRequest, created: seq<Schedule>, s: Schedule, current: Day)
    requires forall i :: 0 <= i < |created| ==>
               Selected(req, created[i].date) && created[i].date < current && CopiesRequest(req, created[i])
    requires forall i, j :: 0 <= i < j < |created| ==> created[i].date < created[j].date
    requires s.date == current && Selected(req, current) && CopiesRequest(req, s)
    ensures var next := created + [s];
            (forall i :: 0 <= i < |next| ==>
               Selected(req, next[i].date) && next[i].date < current + 1 && CopiesRequest(req, next[i]))
            && (forall i, j :: 0 <= i < j < |next| ==> next[i].date < next[j].date)
  {
    var next := created + [s];
    assert forall i :: 0 <= i < |created| ==> next[i] == created[i];
    assert next[|created|] == s;
  }

  /** An entry keyed above everything before it keeps every entry's id above all earlier ones. */
  lemma AppendKeepsFreshIds(store: seq<Schedule>, created: seq<Schedule>, s: Schedule)
    requires forall i :: 0 <= i < |created| ==> forall x :: x in store + created[..i] ==> x.id < created[i].id
    requires forall x :: x in store + created ==> x.id < s.id
    ensures var next := created + [s];
            forall i :: 0 <= i < |next| ==> forall x :: x in store + next[..i] ==> x.id < next[i].id
  {
    var next := created + [s];
    forall i | 0 <= i < |next|
      ensures forall x :: x in store + next[..i] ==> x.id < next[i].id
    {
      if i < |created| {
        assert next[..i] == created[..i];
        assert next[i] == created[i];
      } else {
        assert next[..i] == created;
      }
    }
  }

  /** Appending the schedule for `current` extends the coverage of selected days by that day. */
  lemma AppendCoversDay(req: RecurringRequest, created: seq<Schedule>, s: Schedule, current: Day)
    requires forall d :: req.startDate <= d < current && Selected(req, d) ==>
               exists i :: 0 <= i < |created| && created[i].date == d
    requires s.date == current
    ensures var next := created + [s];
            forall d :: req.startDate <= d < current + 1 && Selected(req, d) ==>
              exists i :: 0 <= i < |next| && next[i].date == d
  {
    var next := created + [s];
    forall d | req.startDate <= d < current + 1 && Selected(req, d)
      ensures exists i :: 0 <= i < |next| && next[i].date == d
    {
      if d == current {
        assert next[|created|].date == d;
      } else {
        var i :| 0 <= i < |created| && created[i].date == d;
        assert next[i].date == d;
      }
    }
  }

  /** Once past the end date, the loop's account covers every selected day. */
  lemma CreatedWhenDone(store: seq<Schedule>, req: RecurringRequest, created: seq<Schedule>, current: Day)
    requires CreatedBefore(store, req, created, current) && current > req.endDate
    ensures forall i :: 0 <= i < |created| ==> Selected(req, created[i].date) && CopiesRequest(req, created[i])
    ensures forall d :: Selected(req, d) ==> exists i :: 0 <= i < |created| && created[i].date == d
    ensures forall i, j :: 0 <= i < j < |created| ==> created[i].date < created[j].date
    ensures forall i :: 0 <= i < |created| ==> forall x :: x in store + created[..i] ==> x.id < created[i].id
  {
  }

  /**
   * `generateRecurring`: admins and managers only, then 422 for a request the
   * validator refuses. Walks every day from the start date to the end date
   * inclusive and creates one schedule on each day whose weekday was
   * requested, appending it under the next id.
   */
  method GenerateRecurring(store: seq<Schedule>, caller: User, req: RecurringRequest) returns (after: seq<Schedule>, reply: Reply)
    ensures !IsSupervisor(caller) <==> after == store && reply == Refused(403, Unauthorized)
    ensures IsSupervisor(caller) && !ValidRecurring(req) <==> after == store && reply == Invalid
    ensures reply.Generated? <==> IsSupervisor(caller) && ValidRecurring(req)
    ensures reply.Generated? ==> after == store + reply.schedules
    ensures reply.Generated? ==> reply.message == NatToString(|reply.schedules|) + " schedules created"
    ensures reply.Generated? ==>
            forall i :: 0 <= i < |reply.schedules| ==>
              Selected(req, reply.schedules[i].date) && CopiesRequest(req, reply.schedules[i])
    ensures reply.Generated? ==>
            forall d :: Selected(req, d) ==> exists i :: 0 <= i < |reply.schedules| && reply.schedules[i].date == d
    ensures reply.Generated? ==>
            forall i, j :: 0 <= i < j < |reply.schedules| ==> reply.schedules[i].date < reply.schedules[j].date
    ensures reply.Generated? ==>
            forall i :: 0 <= i < |reply.schedules| ==>
              forall x :: x in store + reply.schedules[..i] ==> x.id < reply.schedules[i].id
  {
    if !IsSupervisor(caller) {
      return store, Refused(403, Unauthorized);
    }
    if !ValidRecurring(req) {
      return store, Invalid;
    }
    var created: seq<Schedule> := [];
    var current := req.startDate;
    assert CreatedBefore(store, req, created, current);
    while current <= req.endDate
      invariant req.startDate <= current
      invariant current == req.startDate || current <= req.endDate + 1
      invariant CreatedBefore(store, req, created, current)
      decreases req.endDate - current
    {
      if Weekday(current) as int in req.daysOfWeek {
        AppendKeepsCreated(store, req, created, current);
        created := created + [RecurringSchedule(NextKey(store + created, ScheduleKey), req, current)];
      } else {
        SkipKeepsCreated(store, req, created, current);
      }
      current := current + 1;
    }
    CreatedWhenDone(store, req, created, current);
    after := store + created;
    reply := Generated(NatToString(|created|) + " schedules created", created);
  }
}
