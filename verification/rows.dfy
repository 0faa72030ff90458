/**
 * Tables as sequences of rows. `first()` returns the earliest matching row
 * in sequence order, and `get()` returns every matching row.
 */
module Rows {
  import opened Wrappers

  /** No row before index `i` satisfies `p`. */
  predicate NoneBefore<T>(s: seq<T>, p: T -> bool, i: int)
    requires 0 <= i <= |s|
  {
    forall j :: 0 <= j < i ==> !p(s[j])
  }

  /** The query builder's `first()`: the earliest row satisfying `p`, if any. */
  function First<T>(s: seq<T>, p: T -> bool): (r: Option<T>)
    ensures r.Some? ==> r.value in s && p(r.value)
    ensures r.None? <==> forall x :: x in s ==> !p(x)
    ensures r.Some? ==> exists i :: 0 <= i < |s| && s[i] == r.value && NoneBefore(s, p, i)
  {
    if s == [] then None
    else if p(s[0]) then
      assert NoneBefore(s, p, 0);
      Some(s[0])
    else
      var r := First(s[1..], p);
      FirstShift(s, p, r);
      r
  }

  /** Lifts the tail's answer to the whole table when the head row does not match. */
  lemma FirstShift<T>(s: seq<T>, p: T -> bool, r: Option<T>)
    requires s != [] && !p(s[0])
    requires r.Some? ==> r.value in s[1..] && p(r.value)
    requires r.None? <==> forall x :: x in s[1..] ==> !p(x)
    requires r.Some? ==> exists i :: 0 <= i < |s[1..]| && s[1..][i] == r.value && NoneBefore(s[1..], p, i)
    ensures r.Some? ==> r.value in s && p(r.value)
    ensures r.None? <==> forall x :: x in s ==> !p(x)
    ensures r.Some? ==> exists i :: 0 <= i < |s| && s[i] == r.value && NoneBefore(s, p, i)
  {
    if r.Some? {
      var i :| 0 <= i < |s[1..]| && s[1..][i] == r.value && NoneBefore(s[1..], p, i);
      assert s[i + 1] == r.value && NoneBefore(s, p, i + 1);
    } else {
      assert forall x :: x in s ==> x == s[0] || x in s[1..];
    }
  }

  /** Two conditions that agree on every row select the same first row. */
  lemma {:induction false} FirstCongruent<T>(s: seq<T>, p: T -> bool, q: T -> bool)
    requires forall x :: x in s ==> p(x) == q(x)
    ensures First(s, p) == First(s, q)
  {
    if s != [] {
      assert forall x :: x in s[1..] ==> x in s;
      FirstCongruent(s[1..], p, q);
    }
  }

  /** The query builder's `get()`: every row satisfying `p`, in table order. */
  function Filter<T(!new)>(s: seq<T>, p: T -> bool): (r: seq<T>)
    ensures |r| <= |s|
    ensures forall x :: x in r <==> x in s && p(x)
    ensures forall x :: multiset(r)[x] == if p(x) then multiset(s)[x] else 0
  {
    if s == [] then []
    else
      assert s == [s[0]] + s[1..];
      if p(s[0]) then [s[0]] + Filter(s[1..], p) else Filter(s[1..], p)
  }

  /** Two conditions that agree on every row keep the same rows. */
  lemma {:induction false} FilterCongruent<T(!new)>(s: seq<T>, p: T -> bool, q: T -> bool)
    requires forall x :: x in s ==> p(x) == q(x)
    ensures Filter(s, p) == Filter(s, q)
  {
    if s != [] {
      assert forall x :: x in s[1..] ==> x in s;
      FilterCongruent(s[1..], p, q);
    }
  }

  /** The auto-increment key the next insert receives: one more than the largest key in use. */
  function NextKey<T>(s: seq<T>, key: T -> nat): (k: nat)
    ensures k >= 1
    ensures forall x :: x in s ==> key(x) < k
  {
    if s == [] then 1
    else
      var rest := NextKey(s[1..], key);
      assert forall x :: x in s ==> x == s[0] || x in s[1..];
      if key(s[0]) + 1 > rest then key(s[0]) + 1 else rest
  }

  /** Writes `r` over every row sharing its key; the other rows and their order stay as they were. */
  function ReplaceKeyed<T>(s: seq<T>, key: T -> nat, r: T): (t: seq<T>)
    ensures |t| == |s|
    ensures forall i :: 0 <= i < |t| ==> t[i] == if key(s[i]) == key(r) then r else s[i]
  {
    seq(|s|, i requires 0 <= i < |s| => if key(s[i]) == key(r) then r else s[i])
  }
}
