/**
 * A small model of the query builder's where-clauses over the
 * time_registrations table, as the overlap check composes them: each call
 * appends a clause joined by `and` or `or`; the generated SQL gives `and`
 * precedence over `or`; comparisons with a NULL column are unknown.
 */
module Query {
  import opened Wrappers
  import opened Rows
  import opened Registrations

  /** SQL's three truth values. */
  datatype Truth = Yes | No | Unknown

  function And3(a: Truth, b: Truth): (t: Truth)
    ensures t == Yes <==> a == Yes && b == Yes
  {
    if a == No || b == No then No
    else if a == Yes && b == Yes then Yes
    else Unknown
  }

  function Or3(a: Truth, b: Truth): (t: Truth)
    ensures t == Yes <==> a == Yes || b == Yes
  {
    if a == Yes || b == Yes then Yes
    else if a == No && b == No then No
    else Unknown
  }

  datatype Column = UserIdColumn | DateColumn | IdColumn | ClockInColumn | ClockOutColumn

  datatype Op = Eq | Ne | Le | Ge

  /**
   * One condition. A closure that chains two `where` calls is a
   * parenthesised conjunction (`Both`); one that chains `where` and
   * `orWhere` is a parenthesised disjunction (`Either`).
   */
  datatype Cond =
    | Compare(column: Column, op: Op, value: int)
    | IsNull(column: Column)
    | Both(left: Cond, right: Cond)
    | Either(left: Cond, right: Cond)

  /** How a clause is attached: `where` or `orWhere`. */
  datatype Where = Where(isOr: bool, cond: Cond)

  /** A column of a row; only clock_out can be NULL. Dates are day numbers, times seconds. */
  function ValueOf(r: Registration, column: Column): (v: Option<int>)
    ensures v.None? <==> column == ClockOutColumn && r.clockOut.None?
  {
    match column
    case UserIdColumn => Some(r.userId)
    case DateColumn => Some(r.date)
    case IdColumn => Some(r.id)
    case ClockInColumn => Some(r.clockIn)
    case ClockOutColumn => if r.clockOut.Some? then Some(r.clockOut.value) else None
  }

  function Apply(op: Op, a: int, b: int): bool
  {
    match op
    case Eq => a == b
    case Ne => a != b
    case Le => a <= b
    case Ge => a >= b
  }

  function EvalCond(c: Cond, r: Registration): Truth
  {
    match c
    case Compare(column, op, value) =>
      var v := ValueOf(r, column);
      if v.None? then Unknown else if Apply(op, v.value, value) then Yes else No
    case IsNull(column) => if ValueOf(r, column).None? then Yes else No
    case Both(a, b) => And3(EvalCond(a, r), EvalCond(b, r))
    case Either(a, b) => Or3(EvalCond(a, r), EvalCond(b, r))
  }

  /**
   * Reads a non-empty clause list left to right as SQL does: the pair is
   * (disjunction of the finished `and`-groups, the `and`-group still open).
   */
  function Groups(ws: seq<Where>, r: Registration): (Truth, Truth)
    requires ws != []
  {
    if |ws| == 1 then (No, EvalCond(ws[0].cond, r))
    else
      var (done, current) := Groups(ws[..|ws| - 1], r);
      var w := ws[|ws| - 1];
      if w.isOr then (Or3(done, current), EvalCond(w.cond, r))
      else (done, And3(current, EvalCond(w.cond, r)))
  }

  /** The truth of the whole where-clause for one row; no clause selects every row. */
  function EvalWheres(ws: seq<Where>, r: Registration): Truth
  {
    if ws == [] then Yes
    else
      var (done, current) := Groups(ws, r);
      Or3(done, current)
  }

  /** A row is selected only when its where-clause is true, not unknown. */
  predicate Selects(ws: seq<Where>, r: Registration)
  {
    EvalWheres(ws, r) == Yes
  }

  /** Appending `and` clauses to a list of `and` clauses requires each of them. */
  lemma {:induction false} AllAndSelects(ws: seq<Where>, r: Registration)
    requires forall i :: 0 <= i < |ws| ==> !ws[i].isOr
    ensures Selects(ws, r) <==> forall i :: 0 <= i < |ws| ==> EvalCond(ws[i].cond, r) == Yes
  {
    if |ws| > 1 {
      AllAndGroups(ws, r);
    } else if |ws| == 1 {
      assert Groups(ws, r) == (No, EvalCond(ws[0].cond, r));
    }
  }

  lemma {:induction false} AllAndGroups(ws: seq<Where>, r: Registration)
    requires ws != []
    requires forall i :: 0 <= i < |ws| ==> !ws[i].isOr
    ensures Groups(ws, r).0 == No
    ensures Groups(ws, r).1 == Yes <==> forall i :: 0 <= i < |ws| ==> EvalCond(ws[i].cond, r) == Yes
  {
    if |ws| > 1 {
      var init := ws[..|ws| - 1];
      AllAndGroups(init, r);
      assert forall i :: 0 <= i < |init| ==> init[i] == ws[i];
    }
  }

  /** The builder's `first()`: the earliest selected row. */
  function FirstWhere(store: seq<Registration>, ws: seq<Where>): (r: Option<Registration>)
    ensures r.Some? ==> r.value in store && Selects(ws, r.value)
    ensures r.None? <==> forall x :: x in store ==> !Selects(ws, x)
  {
    First(store, x => Selects(ws, x))
  }

  /** Two clause lists that select the same rows of the table return the same first row. */
  lemma FirstWhereCongruent(store: seq<Registration>, ws1: seq<Where>, ws2: seq<Where>)
    requires forall x :: x in store ==> (Selects(ws1, x) <==> Selects(ws2, x))
    ensures FirstWhere(store, ws1) == FirstWhere(store, ws2)
  {
    FirstCongruent(store, x => Selects(ws1, x), x => Selects(ws2, x));
  }
}
