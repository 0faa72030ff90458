/**
 * The overlap check run before a registration is created or edited, in two
 * forms built from the same query-builder model: the check as the code
 * composes it, and the check its comments and the edit tests describe, in
 * which the three interval conditions stay inside the user/date scope and the
 * fallback for an open candidate starts again from the scoped query.
 */
module Overlap {
  import opened Wrappers
  import opened Clock
  import opened Calendar
  import opened Rows
  import opened Registrations
  import opened Query

  /** `if ($excludeId)`: only a present, non-zero id is excluded. */
  predicate Excluded(r: Registration, excludeId: Option<nat>)
  {
    excludeId.Some? && excludeId.value != 0 && r.id == excludeId.value
  }

  /** A sibling of the candidate: same user, same date, not the registration being edited. */
  predicate InScope(r: Registration, userId: nat, date: Day, excludeId: Option<nat>)
  {
    r.userId == userId && r.date == date && !Excluded(r, excludeId)
  }

  /** The closed registration `r` spans the instant `t`, ends included. */
  predicate Covers(r: Registration, t: Time)
  {
    r.clockOut.Some? && r.clockIn <= t <= r.clockOut.value
  }

  /** The closed registration `r` lies within [clockIn, clockOut], ends included. */
  predicate ContainedIn(r: Registration, clockIn: Time, clockOut: Time)
  {
    r.clockOut.Some? && clockIn <= r.clockIn && r.clockOut.value <= clockOut
  }

  /**
   * The three commented checks: the candidate starts during `r`, ends during
   * `r`, or contains `r`.
   */
  predicate Clashes(r: Registration, clockIn: Time, clockOut: Time)
  {
    Covers(r, clockIn) || Covers(r, clockOut) || ContainedIn(r, clockIn, clockOut)
  }

  /**
   * What the generated SQL of a closed candidate actually requires: only the
   * first check is scoped to the user, date and exclusion.
   */
  predicate EscapedClash(r: Registration, userId: nat, date: Day, excludeId: Option<nat>, clockIn: Time, clockOut: Time)
  {
    (InScope(r, userId, date, excludeId) && Covers(r, clockIn)) || Covers(r, clockOut) || ContainedIn(r, clockIn, clockOut)
  }

  // ---------------------------------------------------------------------------
  // The clauses the check appends to its query.

  /** `where('user_id', …)->whereDate('date', …)` and, for a non-zero id, `where('id', '!=', …)`. */
  function ScopeWheres(userId: nat, date: Day, excludeId: Option<nat>): (ws: seq<Where>)
    ensures forall i :: 0 <= i < |ws| ==> !ws[i].isOr
  {
    [Where(false, Compare(UserIdColumn, Eq, userId)), Where(false, Compare(DateColumn, Eq, date))]
    + (if excludeId.Some? && excludeId.value != 0 then [Where(false, Compare(IdColumn, Ne, excludeId.value))] else [])
  }

  /** The closure `clock_in <= t and clock_out >= t`. */
  function Within(t: Time): Cond
  {
    Both(Compare(ClockInColumn, Le, t), Compare(ClockOutColumn, Ge, t))
  }

  /** The closure `clock_in >= clockIn and clock_out <= clockOut`. */
  function Inside(clockIn: Time, clockOut: Time): Cond
  {
    Both(Compare(ClockInColumn, Ge, clockIn), Compare(ClockOutColumn, Le, clockOut))
  }

  /** A NULL clock_out makes the `Within` closure unknown, so it holds exactly on a covering closed row. */
  lemma WithinMeansCovers(t: Time, x: Registration)
    ensures EvalCond(Within(t), x) == Yes <==> Covers(x, t)
  {
    assert EvalCond(Compare(ClockInColumn, Le, t), x) == Yes <==> x.clockIn <= t;
    assert EvalCond(Compare(ClockOutColumn, Ge, t), x) == Yes <==> x.clockOut.Some? && x.clockOut.value >= t;
  }

  lemma InsideMeansContained(clockIn: Time, clockOut: Time, x: Registration)
    ensures EvalCond(Inside(clockIn, clockOut), x) == Yes <==> ContainedIn(x, clockIn, clockOut)
  {
    assert EvalCond(Compare(ClockInColumn, Ge, clockIn), x) == Yes <==> x.clockIn >= clockIn;
    assert EvalCond(Compare(ClockOutColumn, Le, clockOut), x) == Yes <==> x.clockOut.Some? && x.clockOut.value <= clockOut;
  }

  /** The scope clauses select exactly the candidate's siblings. */
  lemma ScopeMeansInScope(userId: nat, date: Day, excludeId: Option<nat>, x: Registration)
    ensures (forall i :: 0 <= i < |ScopeWheres(userId, date, excludeId)| ==> EvalCond(ScopeWheres(userId, date, excludeId)[i].cond, x) == Yes)
            <==> InScope(x, userId, date, excludeId)
  {
    var ws := ScopeWheres(userId, date, excludeId);
    assert EvalCond(ws[0].cond, x) == Yes <==> x.userId == userId;
    assert EvalCond(ws[1].cond, x) == Yes <==> x.date == date;
    if excludeId.Some? && excludeId.value != 0 {
      assert EvalCond(ws[2].cond, x) == Yes <==> x.id != excludeId.value;
    }
  }

  /** The scope followed by one more `where`: a sibling that also meets the condition. */
  lemma ScopedWhere(userId: nat, date: Day, excludeId: Option<nat>, c: Cond, x: Registration)
    ensures Selects(ScopeWheres(userId, date, excludeId) + [Where(false, c)], x)
            <==> InScope(x, userId, date, excludeId) && EvalCond(c, x) == Yes
  {
    var scope := ScopeWheres(userId, date, excludeId);
    var ws := scope + [Where(false, c)];
    assert forall i :: 0 <= i < |scope| ==> ws[i] == scope[i];
    AllAndSelects(ws, x);
    ScopeMeansInScope(userId, date, excludeId, x);
  }

  /** The scoped first check, then two checks attached with `orWhere` after it. */
  lemma EscapingWheres(userId: nat, date: Day, excludeId: Option<nat>, clockIn: Time, clockOut: Time, x: Registration)
    ensures Selects(ScopeWheres(userId, date, excludeId) + [Where(false, Within(clockIn)), Where(true, Within(clockOut)), Where(true, Inside(clockIn, clockOut))], x)
            <==> EscapedClash(x, userId, date, excludeId, clockIn, clockOut)
  {
    var scope := ScopeWheres(userId, date, excludeId);
    var a := Where(false, Within(clockIn));
    var b := Where(true, Within(clockOut));
    var c := Where(true, Inside(clockIn, clockOut));
    var ws := scope + [a, b, c];
    assert ws[..|ws| - 1] == scope + [a, b];
    assert (scope + [a, b])[..|scope| + 1] == scope + [a];
    var init := scope + [a];
    assert forall i :: 0 <= i < |scope| ==> init[i] == scope[i];
    AllAndGroups(init, x);
    var g := Groups(init, x);
    assert Groups(scope + [a, b], x) == (Or3(g.0, g.1), EvalCond(b.cond, x));
    assert Groups(ws, x) == (Or3(Or3(g.0, g.1), EvalCond(b.cond, x)), EvalCond(c.cond, x));
    ScopeMeansInScope(userId, date, excludeId, x);
    WithinMeansCovers(clockIn, x);
    WithinMeansCovers(clockOut, x);
    InsideMeansContained(clockIn, clockOut, x);
  }

  // ---------------------------------------------------------------------------
  // The two forms of the check.

  /** The first open sibling in scope: the query both forms run first for an open candidate. */
  function OpenSibling(store: seq<Registration>, userId: nat, date: Day, excludeId: Option<nat>): (r: Option<Registration>)
    ensures r.Some? <==> exists x :: x in store && InScope(x, userId, date, excludeId) && IsOpen(x)
    ensures r.Some? ==> r.value in store && InScope(r.value, userId, date, excludeId) && IsOpen(r.value)
  {
    var narrowed := ScopeWheres(userId, date, excludeId) + [Where(false, IsNull(ClockOutColumn))];
    assert forall x :: Selects(narrowed, x) <==> InScope(x, userId, date, excludeId) && IsOpen(x) by {
      forall x { ScopedWhere(userId, date, excludeId, IsNull(ClockOutColumn), x); }
    }
    FirstWhere(store, narrowed)
  }

  /**
   * The check as the code builds it. The open-candidate fallback reuses the
   * builder that `whereNull('clock_out')` has already narrowed, and the
   * second and third interval checks are attached with top-level `orWhere`.
   */
  function FindOverlapAsWritten(store: seq<Registration>, userId: nat, date: Day, clockIn: Time, clockOut: Option<Time>, excludeId: Option<nat>): (r: Option<Registration>)
    ensures r.Some? ==> r.value in store
    ensures clockOut.None? ==> (r.Some? <==> exists x :: x in store && InScope(x, userId, date, excludeId) && IsOpen(x))
    ensures clockOut.None? && r.Some? ==> InScope(r.value, userId, date, excludeId) && IsOpen(r.value)
    ensures clockOut.Some? && r.Some? ==> EscapedClash(r.value, userId, date, excludeId, clockIn, clockOut.value)
    ensures clockOut.Some? ==> (r.None? <==> forall x :: x in store ==> !EscapedClash(x, userId, date, excludeId, clockIn, clockOut.value))
  {
    var scope := ScopeWheres(userId, date, excludeId);
    if clockOut.None? then
      var open := OpenSibling(store, userId, date, excludeId);
      if open.Some? then open
      else
        FallbackSelectsNothing(userId, date, excludeId, clockIn);
        FirstWhere(store, scope + [Where(false, IsNull(ClockOutColumn))] + [Where(false, Within(clockIn))])
    else
      var ws := scope + [Where(false, Within(clockIn)), Where(true, Within(clockOut.value)), Where(true, Inside(clockIn, clockOut.value))];
      assert forall x :: Selects(ws, x) <==> EscapedClash(x, userId, date, excludeId, clockIn, clockOut.value) by {
        forall x { EscapingWheres(userId, date, excludeId, clockIn, clockOut.value, x); }
      }
      FirstWhere(store, ws)
  }

  /** On the narrowed builder the fallback asks for clock_out to be NULL and compared at once: no row passes. */
  lemma FallbackSelectsNothing(userId: nat, date: Day, excludeId: Option<nat>, clockIn: Time)
    ensures forall x :: !Selects(ScopeWheres(userId, date, excludeId) + [Where(false, IsNull(ClockOutColumn))] + [Where(false, Within(clockIn))], x)
  {
    var ws := ScopeWheres(userId, date, excludeId) + [Where(false, IsNull(ClockOutColumn))] + [Where(false, Within(clockIn))];
    forall x
      ensures !Selects(ws, x)
    {
      AllAndSelects(ws, x);
      assert EvalCond(ws[|ws| - 2].cond, x) == Yes ==> EvalCond(ws[|ws| - 1].cond, x) != Yes;
    }
  }

  /**
   * The check as its comments describe it, with the three interval checks
   * grouped inside the scoped query and the fallback on a newly scoped query.
   * An open candidate conflicts with an open sibling first, then with a
   * closed sibling spanning its clock-in; a closed candidate conflicts with a
   * sibling exactly when one of the three checks holds.
   */
  function FindOverlap(store: seq<Registration>, userId: nat, date: Day, clockIn: Time, clockOut: Option<Time>, excludeId: Option<nat>): (r: Option<Registration>)
    ensures r.Some? ==> r.value in store && InScope(r.value, userId, date, excludeId)
    ensures clockOut.None? && (exists x :: x in store && InScope(x, userId, date, excludeId) && IsOpen(x)) ==> r.Some? && IsOpen(r.value)
    ensures clockOut.None? && r.Some? ==> IsOpen(r.value) || Covers(r.value, clockIn)
    ensures clockOut.None? ==> (r.None? <==> forall x :: x in store && InScope(x, userId, date, excludeId) ==> !IsOpen(x) && !Covers(x, clockIn))
    ensures clockOut.Some? && r.Some? ==> Clashes(r.value, clockIn, clockOut.value)
    ensures clockOut.Some? ==> (r.None? <==> forall x :: x in store && InScope(x, userId, date, excludeId) ==> !Clashes(x, clockIn, clockOut.value))
  {
    var scope := ScopeWheres(userId, date, excludeId);
    if clockOut.None? then
      var open := OpenSibling(store, userId, date, excludeId);
      if open.Some? then open
      else (
        var rescoped := scope + [Where(false, Within(clockIn))];
        assert forall x :: Selects(rescoped, x) <==> InScope(x, userId, date, excludeId) && Covers(x, clockIn) by {
          forall x
            ensures Selects(rescoped, x) <==> InScope(x, userId, date, excludeId) && Covers(x, clockIn)
          {
            ScopedWhere(userId, date, excludeId, Within(clockIn), x);
            WithinMeansCovers(clockIn, x);
          }
        }
        FirstWhere(store, rescoped))
    else
      var c := Either(Either(Within(clockIn), Within(clockOut.value)), Inside(clockIn, clockOut.value));
      var ws := scope + [Where(false, c)];
      assert forall x :: Selects(ws, x) <==> InScope(x, userId, date, excludeId) && Clashes(x, clockIn, clockOut.value) by {
        forall x
          ensures Selects(ws, x) <==> InScope(x, userId, date, excludeId) && Clashes(x, clockIn, clockOut.value)
        {
          ScopedWhere(userId, date, excludeId, c, x);
          WithinMeansCovers(clockIn, x);
          WithinMeansCovers(clockOut.value, x);
          InsideMeansContained(clockIn, clockOut.value, x);
        }
      }
      FirstWhere(store, ws)
  }

  /** Which form of the check an endpoint runs: the code's, or the one its comments describe. */
  datatype CheckForm = AsWritten | Intended

  /** The check in the chosen form. */
  function CheckOverlap(form: CheckForm, store: seq<Registration>, userId: nat, date: Day, clockIn: Time, clockOut: Option<Time>, excludeId: Option<nat>)
    : Option<Registration>
  {
    match form
    case AsWritten => FindOverlapAsWritten(store, userId, date, clockIn, clockOut, excludeId)
    case Intended => FindOverlap(store, userId, date, clockIn, clockOut, excludeId)
  }

  // ---------------------------------------------------------------------------
  // The interval reading of the three checks.

  function Later(a: Time, b: Time): Time
  {
    if a < b then b else a
  }

  function Earlier(a: Time, b: Time): Time
  {
    if a < b then a else b
  }

  /**
   * With clock-in before clock-out on both sides, the three checks hold
   * exactly when the two closed intervals share an instant.
   */
  lemma ClashIsIntersection(r: Registration, clockIn: Time, clockOut: Time)
    requires r.clockOut.Some? && r.clockIn < r.clockOut.value && clockIn < clockOut
    ensures Clashes(r, clockIn, clockOut) <==> Later(r.clockIn, clockIn) <= Earlier(r.clockOut.value, clockOut)
  {
  }

  /** Hence the check does not depend on which of two registrations is the candidate. */
  lemma ClashSymmetric(a: Registration, b: Registration)
    requires a.clockOut.Some? && a.clockIn < a.clockOut.value
    requires b.clockOut.Some? && b.clockIn < b.clockOut.value
    ensures Clashes(a, b.clockIn, b.clockOut.value) <==> Clashes(b, a.clockIn, a.clockOut.value)
  {
    ClashIsIntersection(a, b.clockIn, b.clockOut.value);
    ClashIsIntersection(b, a.clockIn, a.clockOut.value);
  }

  /** The comparisons are inclusive: a sibling that ends when the candidate starts conflicts with it. */
  lemma TouchingIntervalsClash(r: Registration, clockIn: Time, clockOut: Time)
    requires r.clockOut == Some(clockIn) && r.clockIn <= clockIn
    ensures Clashes(r, clockIn, clockOut)
  {
  }

  // ---------------------------------------------------------------------------
  // The edit scenarios (times in seconds: 9 * 3600 is 09:00).

  /**
   * Editing [09:00,12:00] to [09:00,14:00] beside [13:00,17:00] on the same
   * day: the intended check reports the 13:00 registration; the code reports
   * the edited registration itself, whose stored interval lies inside the new
   * one and which the unscoped `orWhere` group does not exclude.
   */
  lemma EditIntoNeighbourReported(first: Registration, second: Registration)
    requires first.id != 0 && first.id != second.id
    requires first.userId == second.userId && first.date == second.date
    requires first.clockIn == 9 * 3600 && first.clockOut == Some(12 * 3600)
    requires second.clockIn == 13 * 3600 && second.clockOut == Some(17 * 3600)
    ensures FindOverlap([first, second], first.userId, first.date, 9 * 3600, Some(14 * 3600), Some(first.id)) == Some(second)
    ensures FindOverlapAsWritten([first, second], first.userId, first.date, 9 * 3600, Some(14 * 3600), Some(first.id)) == Some(first)
  {
    assert Clashes(second, 9 * 3600, 14 * 3600);
    var ws := ScopeWheres(first.userId, first.date, Some(first.id))
      + [Where(false, Within(9 * 3600)), Where(true, Within(14 * 3600)), Where(true, Inside(9 * 3600, 14 * 3600))];
    EscapingWheres(first.userId, first.date, Some(first.id), 9 * 3600, 14 * 3600, first);
    assert Selects(ws, first);
  }

  /**
   * As written, the two `orWhere` groups do not exclude the registration
   * being edited: when its new clock-out falls within its stored interval,
   * or its new interval contains the stored one, the check reports
   * something, though the intended check finds nothing on a table holding
   * that registration alone.
   */
  lemma EditMatchesItself(store: seq<Registration>, reg: Registration, date: Day, clockIn: Time, clockOut: Time)
    requires reg in store && reg.id != 0
    requires Covers(reg, clockOut) || ContainedIn(reg, clockIn, clockOut)
    ensures FindOverlapAsWritten(store, reg.userId, date, clockIn, Some(clockOut), Some(reg.id)).Some?
    ensures FindOverlap([reg], reg.userId, date, clockIn, Some(clockOut), Some(reg.id)) == None
  {
    assert EscapedClash(reg, reg.userId, date, Some(reg.id), clockIn, clockOut);
    assert !InScope(reg, reg.userId, date, Some(reg.id));
  }

  /** Editing a lone registration to [10:00,13:00] with its own id excluded reports nothing. */
  lemma EditLoneRegistration(r: Registration)
    requires r.id != 0
    ensures FindOverlap([r], r.userId, r.date, 10 * 3600, Some(13 * 3600), Some(r.id)) == None
  {
  }

  /**
   * Registrations on 2025-05-28 [09:00,12:00] and 2025-05-29 [10:00,14:00];
   * the second is edited to [09:00,12:00]. The intended check reports
   * nothing, as the test expects; the code reports the registration of the
   * other day, which the unscoped `orWhere` lets through.
   */
  lemma EditBesideOtherDate(first: Registration, second: Registration)
    requires second.id != 0 && first.id != second.id
    requires first.userId == second.userId && first.date == 20236 && second.date == 20237
    requires first.clockIn == 9 * 3600 && first.clockOut == Some(12 * 3600)
    requires second.clockIn == 10 * 3600 && second.clockOut == Some(14 * 3600)
    ensures FindOverlap([first, second], second.userId, second.date, 9 * 3600, Some(12 * 3600), Some(second.id)) == None
    ensures FindOverlapAsWritten([first, second], second.userId, second.date, 9 * 3600, Some(12 * 3600), Some(second.id)) == Some(first)
  {
    var ws := ScopeWheres(second.userId, second.date, Some(second.id))
      + [Where(false, Within(9 * 3600)), Where(true, Within(12 * 3600)), Where(true, Inside(9 * 3600, 12 * 3600))];
    EscapingWheres(second.userId, second.date, Some(second.id), 9 * 3600, 12 * 3600, first);
    assert Selects(ws, first);
  }

  /**
   * An open candidate clocking in at 10:00 inside a closed [09:00,12:00]
   * sibling: the intended fallback reports the sibling, the code's fallback
   * can never match.
   */
  lemma OpenCandidateInsideClosedSibling(r: Registration)
    requires r.clockIn == 9 * 3600 && r.clockOut == Some(12 * 3600)
    ensures FindOverlap([r], r.userId, r.date, 10 * 3600, None, None) == Some(r)
    ensures FindOverlapAsWritten([r], r.userId, r.date, 10 * 3600, None, None) == None
  {
    assert Covers(r, 10 * 3600);
  }

  // ---------------------------------------------------------------------------
  // How the two forms relate.

  /** For a closed candidate, the code reports something whenever the intended check does. */
  lemma AsWrittenReportsIntendedConflicts(store: seq<Registration>, userId: nat, date: Day, clockIn: Time, clockOut: Time, excludeId: Option<nat>)
    ensures FindOverlap(store, userId, date, clockIn, Some(clockOut), excludeId).Some?
            ==> FindOverlapAsWritten(store, userId, date, clockIn, Some(clockOut), excludeId).Some?
  {
    var r := FindOverlap(store, userId, date, clockIn, Some(clockOut), excludeId);
    if r.Some? {
      assert EscapedClash(r.value, userId, date, excludeId, clockIn, clockOut);
    }
  }

  /** On a table holding only the candidate's siblings the two forms agree for a closed candidate. */
  lemma FormsAgreeOnSiblings(store: seq<Registration>, userId: nat, date: Day, clockIn: Time, clockOut: Time, excludeId: Option<nat>)
    requires forall x :: x in store ==> InScope(x, userId, date, excludeId)
    ensures FindOverlapAsWritten(store, userId, date, clockIn, Some(clockOut), excludeId)
            == FindOverlap(store, userId, date, clockIn, Some(clockOut), excludeId)
  {
    var scope := ScopeWheres(userId, date, excludeId);
    var c := Either(Either(Within(clockIn), Within(clockOut)), Inside(clockIn, clockOut));
    var written := scope + [Where(false, Within(clockIn)), Where(true, Within(clockOut)), Where(true, Inside(clockIn, clockOut))];
    var intended := scope + [Where(false, c)];
    forall x | x in store
      ensures Selects(written, x) <==> Selects(intended, x)
    {
      EscapingWheres(userId, date, excludeId, clockIn, clockOut, x);
      ScopedWhere(userId, date, excludeId, c, x);
      WithinMeansCovers(clockIn, x);
      WithinMeansCovers(clockOut, x);
      InsideMeansContained(clockIn, clockOut, x);
    }
    FirstWhereCongruent(store, written, intended);
  }

  /** With an open sibling present, both forms return the same (first open) sibling to an open candidate. */
  lemma FormsAgreeOnOpenSibling(store: seq<Registration>, userId: nat, date: Day, clockIn: Time, excludeId: Option<nat>)
    requires exists x :: x in store && InScope(x, userId, date, excludeId) && IsOpen(x)
    ensures FindOverlapAsWritten(store, userId, date, clockIn, None, excludeId)
            == FindOverlap(store, userId, date, clockIn, None, excludeId)
  {
  }
}
