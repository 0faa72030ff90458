/**
 * The admin dashboard listing: every user's registrations in a date window,
 * newest first, each rendered by the admin resource.
 */
module AdminRegistrations {
  import opened Wrappers
  import opened Calendar
  import opened Rows
  import opened Sorting
  import opened Roles
  import opened Registrations
  import opened Resources

  /** An inclusive range of days. */
  datatype Window = Window(start: Day, end: Day)

  predicate InWindow(w: Window, r: Registration)
  {
    w.start <= r.date <= w.end
  }

  /**
   * The window the listing uses: the end defaults to today and the start to
   * seven days before the end, each independently of the other.
   */
  function DateWindow(startDate: Option<Day>, endDate: Option<Day>, today: Day): (w: Window)
    ensures w.end == endDate.GetOr(today)
    ensures startDate.Some? ==> w.start == startDate.value
    ensures startDate.None? ==> w.end - w.start == 7
  {
    var end := endDate.GetOr(today);
    Window(startDate.GetOr(end - 7), end)
  }

  /** With neither bound given, the window is today and the seven days before it: eight days. */
  lemma DefaultWindowIsEightDays(today: Day, d: Day)
    ensures InWindow(DateWindow(None, None, today), Registration(0, 0, d, 0, None, None, None, None, None, "pending"))
            <==> 0 <= today - d < 8
    ensures Weekday(DateWindow(None, None, today).start) == Weekday(today)
  {
    WeekdayWeekly(today - 7);
  }

  /** The rows of a window, ordered by date descending, then clock-in descending. */
  function WindowRows(store: seq<Registration>, w: Window): (rows: seq<Registration>)
    ensures forall x :: x in rows <==> x in store && InWindow(w, x)
    ensures multiset(rows) == multiset(Filter(store, x => InWindow(w, x)))
    ensures SortedBy(rows, NewestFirst)
  {
    SortBy(Filter(store, x => InWindow(w, x)), NewestFirst)
  }

  /**
   * The request's rule `end_date: after_or_equal:start_date`. It is only
   * checked when both bounds are sent; a missing bound takes its default
   * afterwards.
   */
  predicate ValidRange(startDate: Option<Day>, endDate: Option<Day>)
  {
    startDate.Some? && endDate.Some? ==> startDate.value <= endDate.value
  }

  /** The reply of the listing: the rendered rows, or a refusal with its status. */
  datatype AdminReply = Listed(views: seq<AdminView>) | Refused(status: nat)

  /**
   * `index`: 403 from the request's authorisation unless the caller is an
   * admin or a manager, then 422 from its validation for an end before the
   * start; otherwise the window's rows, each rendered by the admin resource,
   * in the listing order.
   */
  function AdminIndex(store: seq<Registration>, caller: User, startDate: Option<Day>, endDate: Option<Day>, today: Day)
    : (reply: AdminReply)
    ensures reply == Refused(403) <==> !IsSupervisor(caller)
    ensures reply == Refused(422) <==> IsSupervisor(caller) && !ValidRange(startDate, endDate)
    ensures reply.Listed? <==> IsSupervisor(caller) && ValidRange(startDate, endDate)
    ensures reply.Listed? ==> |reply.views| == |Filter(store, x => InWindow(DateWindow(startDate, endDate, today), x))|
  {
    if !IsSupervisor(caller) then Refused(403)
    else if !ValidRange(startDate, endDate) then Refused(422)
    else
      var rows := WindowRows(store, DateWindow(startDate, endDate, today));
      assert |multiset(rows)| == |rows|;
      Listed(RenderWindow(rows))
  }

  /** The rendered rows of a window, one view per row in the same order. */
  function RenderWindow(rows: seq<Registration>): (views: seq<AdminView>)
    ensures |views| == |rows|
    ensures forall i :: 0 <= i < |rows| ==> views[i].registration == rows[i] && views[i] == AdminEntry(rows[i])
  {
    seq(|rows|, i requires 0 <= i < |rows| => AdminEntry(rows[i]))
  }

  /**
   * The listing holds exactly the window's registrations, each rendered by
   * the admin resource, a later date (or the same date and a later clock-in)
   * always first.
   */
  lemma AdminIndexListsWindow(store: seq<Registration>, caller: User, startDate: Option<Day>, endDate: Option<Day>, today: Day)
    requires IsSupervisor(caller) && ValidRange(startDate, endDate)
    ensures var views := AdminIndex(store, caller, startDate, endDate, today).views;
            var w := DateWindow(startDate, endDate, today);
            (forall v :: v in views ==> v.registration in store && InWindow(w, v.registration) && v == AdminEntry(v.registration))
            && (forall x :: x in store && InWindow(w, x) ==> exists i :: 0 <= i < |views| && views[i].registration == x)
            && (forall i, j :: 0 <= i < j < |views| ==> NewestBefore(views[i].registration, views[j].registration))
  {
    var w := DateWindow(startDate, endDate, today);
    var rows := WindowRows(store, w);
    var views := RenderWindow(rows);
    assert AdminIndex(store, caller, startDate, endDate, today).views == views;
    forall x | x in store && InWindow(w, x)
      ensures exists i :: 0 <= i < |views| && views[i].registration == x
    {
      var i :| 0 <= i < |rows| && rows[i] == x;
      assert views[i].registration == x;
    }
    forall i, j | 0 <= i < j < |views|
      ensures NewestBefore(views[i].registration, views[j].registration)
    {
      assert KeyLeq(NewestFirst(rows[i]), NewestFirst(rows[j]));
      NewestFirstOrder(rows[i], rows[j]);
    }
  }

  /**
   * The range rule only applies to a sent end_date: a start after today with
   * no end passes validation, and the window it gives (start to today) is
   * empty, so the listing is empty whatever the table holds.
   */
  lemma FutureStartListsNothing(store: seq<Registration>, caller: User, startDate: Day, today: Day)
    requires IsSupervisor(caller) && startDate > today
    ensures AdminIndex(store, caller, Some(startDate), None, today) == Listed([])
  {
    var w := DateWindow(Some(startDate), None, today);
    assert Filter(store, x => InWindow(w, x)) == [] by {
      var f := Filter(store, x => InWindow(w, x));
      if f != [] {
        assert f[0] in f;
      }
    }
  }
}
