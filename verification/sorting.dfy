/**
 * The `orderBy` clauses of the queries: rows are put in the order of a key,
 * compared lexicographically. Descending columns contribute negated keys and
 * strings contribute their character codes, so one order serves every query.
 * Rows with equal keys come back in an order the database does not fix; the
 * model keeps whatever order insertion sort leaves them in.
 */
module Sorting {

  /** Lexicographic order on integer sequences; a proper prefix comes first. */
  predicate KeyLeq(a: seq<int>, b: seq<int>)
    decreases |a|
  {
    a == [] || (b != [] && (a[0] < b[0] || (a[0] == b[0] && KeyLeq(a[1..], b[1..]))))
  }

  lemma {:induction false} KeyLeqTotal(a: seq<int>, b: seq<int>)
    ensures KeyLeq(a, b) || KeyLeq(b, a)
    decreases |a|
  {
    if a != [] && b != [] && a[0] == b[0] {
      KeyLeqTotal(a[1..], b[1..]);
    }
  }

  lemma {:induction false} KeyLeqTransitive(a: seq<int>, b: seq<int>, c: seq<int>)
    requires KeyLeq(a, b) && KeyLeq(b, c)
    ensures KeyLeq(a, c)
    decreases |a|
  {
    if a != [] && a[0] == b[0] && b[0] == c[0] {
      KeyLeqTransitive(a[1..], b[1..], c[1..]);
    }
  }

  /** The character codes of a string, the key that orders strings lexicographically. */
  function TextKey(s: string): (k: seq<int>)
    ensures |k| == |s| && forall i :: 0 <= i < |s| ==> k[i] == s[i] as int
  {
    seq(|s|, i requires 0 <= i < |s| => s[i] as int)
  }

  ghost predicate SortedBy<T>(s: seq<T>, key: T -> seq<int>)
  {
    forall i, j :: 0 <= i < j < |s| ==> KeyLeq(key(s[i]), key(s[j]))
  }

  function Insert<T>(x: T, s: seq<T>, key: T -> seq<int>): (r: seq<T>)
    requires SortedBy(s, key)
    ensures SortedBy(r, key)
    ensures multiset(r) == multiset(s) + multiset{x}
    ensures |r| == |s| + 1
  {
    if s == [] then [x]
    else if KeyLeq(key(x), key(s[0])) then
      forall j | 0 < j < |s| ensures KeyLeq(key(x), key(s[j])) {
        KeyLeqTransitive(key(x), key(s[0]), key(s[j]));
      }
      [x] + s
    else
      assert s == [s[0]] + s[1..];
      var rest := Insert(x, s[1..], key);
      KeyLeqTotal(key(x), key(s[0]));
      forall j | 0 <= j < |rest| ensures KeyLeq(key(s[0]), key(rest[j])) {
        assert rest[j] in multiset(rest);
        if rest[j] != x {
          assert rest[j] in multiset(s[1..]);
          var k :| 1 <= k < |s| && s[k] == rest[j];
        }
      }
      [s[0]] + rest
  }

  /** The rows of `s`, each kept once, in key order. */
  function SortBy<T>(s: seq<T>, key: T -> seq<int>): (r: seq<T>)
    ensures SortedBy(r, key)
    ensures multiset(r) == multiset(s)
    ensures |r| == |s|
  {
    if s == [] then []
    else
      assert s == [s[0]] + s[1..];
      Insert(s[0], SortBy(s[1..], key), key)
  }

  /** The first `n` rows, or all of them when there are fewer: SQL's `LIMIT`. */
  function Take<T>(s: seq<T>, n: nat): (r: seq<T>)
    ensures |r| == if n < |s| then n else |s|
    ensures r == s[..|r|]
  {
    if n < |s| then s[..n] else s
  }

  /** The first `n` rows of a sorted sequence stay sorted, and none of the rows left out comes before any row kept. */
  lemma TakeSorted<T>(s: seq<T>, key: T -> seq<int>, n: nat)
    requires SortedBy(s, key)
    ensures SortedBy(Take(s, n), key)
    ensures forall x, y :: x in s && x !in Take(s, n) && y in Take(s, n) ==> KeyLeq(key(y), key(x))
  {
    var t := Take(s, n);
    forall x, y | x in s && x !in t && y in t
      ensures KeyLeq(key(y), key(x))
    {
      var i :| 0 <= i < |t| && t[i] == y;
      var k :| 0 <= k < |s| && s[k] == x;
      assert s[i] == y;
      assert forall m :: 0 <= m < |t| ==> t[m] == s[m];
    }
  }
}
