/**
 * The time registration record and its two model hooks: the total-hours
 * calculation and the recomputation that `save` performs.
 */
module Registrations {
  import opened Wrappers
  import opened Clock
  import opened Calendar
  import opened Rows
  import opened Sorting

  /**
   * A row of the time_registrations table. `totalHours` is in hundredths of
   * an hour (the decimal(5,2) column); coordinates are in units of 1e-7
   * degrees (decimal(10,7)).
   */
  datatype Registration = Registration(
    id: nat,
    userId: nat,
    date: Day,
    clockIn: Time,
    clockOut: Option<Time>,
    totalHours: Option<nat>,
    latitude: Option<int>,
    longitude: Option<int>,
    notes: Option<string>,
    status: string)

  /** A registration is open until it has a clock-out time. */
  predicate IsOpen(r: Registration)
  {
    r.clockOut.None?
  }

  /**
   * `calculateTotalHours`: nothing while the registration is open; otherwise
   * the whole minutes between clock-in and clock-out, as hours rounded to two
   * decimals.
   */
  function CalculateTotalHours(r: Registration): (h: Option<nat>)
    ensures h.None? <==> IsOpen(r)
    ensures h.Some? ==> h.value < 2400
    ensures h.Some? ==> -30 < 100 * MinutesBetween(r.clockIn, r.clockOut.value) - 60 * h.value < 30
  {
    match r.clockOut
    case None => None
    case Some(out) =>
      var minutes := MinutesBetween(r.clockIn, out);
      HundredthsWithinDay(minutes);
      Some(HundredthsOfHours(minutes))
  }

  /** The stored total agrees with the times whenever the registration is closed. */
  predicate HoursConsistent(r: Registration)
  {
    !IsOpen(r) ==> r.totalHours == CalculateTotalHours(r)
  }

  /**
   * `save`: a closed registration gets its total recomputed; an open one is
   * stored exactly as it is.
   */
  function Save(r: Registration): (s: Registration)
    ensures HoursConsistent(s)
    ensures !IsOpen(r) ==> s.totalHours == CalculateTotalHours(r)
    ensures s.(totalHours := r.totalHours) == r
    ensures IsOpen(r) ==> s == r
  {
    if r.clockOut.Some? then r.(totalHours := CalculateTotalHours(r)) else r
  }

  /** Saving twice is the same as saving once. */
  lemma SaveIdempotent(r: Registration)
    ensures Save(Save(r)) == Save(r)
  {
  }

  /** Saving a consistent registration changes nothing. */
  lemma SaveKeepsConsistent(r: Registration)
    requires HoursConsistent(r)
    ensures Save(r) == r
  {
  }

  /** Swapping clock-in and clock-out does not change the total, since the difference is absolute. */
  lemma TotalHoursSymmetric(r: Registration)
    requires !IsOpen(r)
    ensures CalculateTotalHours(r.(clockIn := r.clockOut.value, clockOut := Some(r.clockIn))) == CalculateTotalHours(r)
  {
    MinutesBetweenSymmetric(r.clockIn, r.clockOut.value);
  }

  /** The edited registration of the edit tests: 10:00 to 13:00 totals exactly 3.00 hours. */
  lemma TenToOneIsThreeHours(r: Registration)
    requires r.clockIn == At(10, 0, 0) && r.clockOut == Some(At(13, 0, 0))
    ensures CalculateTotalHours(r) == Some(300)
  {
    assert MinutesBetween(r.clockIn, r.clockOut.value) == 60 * 3;
    HundredthsOfWholeHours(3);
  }

  /** The order of every listing: date descending, then clock-in descending. */
  function NewestFirst(r: Registration): seq<int>
  {
    [-(r.date as int), -(r.clockIn as int)]
  }

  /** `a` may precede `b` in a newest-first listing: a later date, or the same date and a later clock-in. */
  predicate NewestBefore(a: Registration, b: Registration)
  {
    a.date > b.date || (a.date == b.date && a.clockIn >= b.clockIn)
  }

  /** Key order on `NewestFirst` is exactly date descending, then clock-in descending. */
  lemma NewestFirstOrder(a: Registration, b: Registration)
    ensures KeyLeq(NewestFirst(a), NewestFirst(b)) <==> NewestBefore(a, b)
  {
    var ka, kb := NewestFirst(a), NewestFirst(b);
    assert ka[1..] == [-(a.clockIn as int)] && kb[1..] == [-(b.clockIn as int)];
    assert ka[1..][1..] == [] && kb[1..][1..] == [];
    assert KeyLeq(ka[1..][1..], kb[1..][1..]);
    assert KeyLeq(ka[1..], kb[1..]) <==> a.clockIn >= b.clockIn;
  }

  /** Every id in the table is below `id`. */
  predicate IdsBelow(store: seq<Registration>, id: nat)
  {
    forall r :: r in store ==> r.id < id
  }

  /** No two rows share an id. */
  predicate UniqueIds(store: seq<Registration>)
  {
    forall i, j :: 0 <= i < j < |store| ==> store[i].id != store[j].id
  }

  /** The auto-increment key the next insert receives: one more than the largest id in use. */
  function NextId(store: seq<Registration>): (id: nat)
    ensures id >= 1 && IdsBelow(store, id)
  {
    NextKey(store, (r: Registration) => r.id)
  }

  /** Appending a row under a fresh id keeps ids unique. */
  lemma InsertKeepsIdsUnique(store: seq<Registration>, r: Registration)
    requires UniqueIds(store) && IdsBelow(store, r.id)
    ensures UniqueIds(store + [r])
  {
    assert forall i :: 0 <= i < |store| ==> store[i] in store;
  }

  /** Writes `r` over the row holding its id; the other rows and their order stay as they were. */
  function UpdateRow(store: seq<Registration>, r: Registration): (s: seq<Registration>)
    ensures |s| == |store|
    ensures forall i :: 0 <= i < |s| ==> s[i] == if store[i].id == r.id then r else store[i]
  {
    ReplaceKeyed(store, (x: Registration) => x.id, r)
  }

  /** Updating a row in place keeps ids unique and puts `r` in the table when its id was there. */
  lemma UpdateRowKeepsIds(store: seq<Registration>, r: Registration)
    requires UniqueIds(store)
    ensures UniqueIds(UpdateRow(store, r))
    ensures (exists i :: 0 <= i < |store| && store[i].id == r.id) ==> r in UpdateRow(store, r)
  {
    var s := UpdateRow(store, r);
    if exists i :: 0 <= i < |store| && store[i].id == r.id {
      var i :| 0 <= i < |store| && store[i].id == r.id;
      assert s[i] == r;
    }
  }
}
