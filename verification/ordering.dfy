/** The `ORDER BY` clauses of the three reports: a sort over any total
    preorder, SQLite's text order, and SQLite's placement of NULL under
    `DESC`. Rows with equal sort keys may come out in any order, so the
    sort is specified by sortedness and permutation only. */
module Ordering {
  import opened Nullable

  /** `le` is total and transitive: a valid `ORDER BY` comparison. */
  ghost predicate TotalPreorder<T(!new)>(le: (T, T) -> bool)
  {
    && (forall a, b :: le(a, b) || le(b, a))
    && (forall a, b, c :: le(a, b) && le(b, c) ==> le(a, c))
  }

  /** Every element comes no later than each element after it. */
  ghost predicate Sorted<T>(s: seq<T>, le: (T, T) -> bool)
  {
    forall i, j :: 0 <= i < j < |s| ==> le(s[i], s[j])
  }

  /** Inserts `x` into the sorted `s` before the first element it does not follow. */
  function Insert<T(!new)>(x: T, s: seq<T>, le: (T, T) -> bool): (r: seq<T>)
    requires TotalPreorder(le)
    requires Sorted(s, le)
    ensures Sorted(r, le)
    ensures multiset(r) == multiset(s) + multiset{x}
    decreases |s|
  {
    if s == [] then [x]
    else if le(x, s[0]) then
      assert forall j :: 0 <= j < |s| ==> le(x, s[j]);
      [x] + s
    else
      var rest := Insert(x, s[1..], le);
      assert s == [s[0]] + s[1..];
      LowerBound(s[0], x, s[1..], rest, le);
      [s[0]] + rest
  }

  /** A lower bound of `x` and of every element of `s` bounds every element
      of a permutation of `s` with `x` added. */
  lemma LowerBound<T>(b: T, x: T, s: seq<T>, r: seq<T>, le: (T, T) -> bool)
    requires multiset(r) == multiset(s) + multiset{x}
    requires le(b, x)
    requires forall j :: 0 <= j < |s| ==> le(b, s[j])
    ensures forall j :: 0 <= j < |r| ==> le(b, r[j])
  {
    forall j | 0 <= j < |r| ensures le(b, r[j]) {
      assert r[j] in multiset(r);
      if r[j] != x {
        assert r[j] in multiset(s);
        var k :| 0 <= k < |s| && s[k] == r[j];
      }
    }
  }

  /** Insertion sort: a sorted permutation of `s`. */
  function Sort<T(!new)>(s: seq<T>, le: (T, T) -> bool): (r: seq<T>)
    requires TotalPreorder(le)
    ensures Sorted(r, le)
    ensures multiset(r) == multiset(s)
    decreases |s|
  {
    if s == [] then []
    else
      assert s == [s[0]] + s[1..];
      Insert(s[0], Sort(s[1..], le), le)
  }

  /** Text order of SQLite's default BINARY collation on code points:
      the first differing character decides, and a proper prefix comes first. */
  predicate TextLe(a: string, b: string)
    decreases |a|
  {
    |a| == 0 || (|b| > 0 && (a[0] < b[0] || (a[0] == b[0] && TextLe(a[1..], b[1..]))))
  }

  lemma {:induction false} TextLeTotal(a: string, b: string)
    ensures TextLe(a, b) || TextLe(b, a)
    decreases |a|
  {
    if |a| > 0 && |b| > 0 && a[0] == b[0] {
      TextLeTotal(a[1..], b[1..]);
    }
  }

  lemma {:induction false} TextLeAntisymmetric(a: string, b: string)
    requires TextLe(a, b) && TextLe(b, a)
    ensures a == b
    decreases |a|
  {
    if |a| > 0 {
      TextLeAntisymmetric(a[1..], b[1..]);
      assert a == [a[0]] + a[1..] && b == [b[0]] + b[1..];
    }
  }

  lemma {:induction false} TextLeTransitive(a: string, b: string, c: string)
    requires TextLe(a, b) && TextLe(b, c)
    ensures TextLe(a, c)
    decreases |a|
  {
    if |a| > 0 && a[0] == b[0] && b[0] == c[0] {
      TextLeTransitive(a[1..], b[1..], c[1..]);
    }
  }

  /** SQLite `ORDER BY x DESC`: NULL is smaller than every value, so larger
      values come first and NULLs come last. */
  predicate DescNullsLast(x: Option<real>, y: Option<real>)
  {
    match x
    case None => y.None?
    case Some(a) => y.None? || a >= y.value
  }

  /** `DescNullsLast` orders every pair, is transitive, puts any value before
      NULL, and orders values from largest to smallest. */
  lemma DescNullsLastOrder()
    ensures TotalPreorder(DescNullsLast)
    ensures forall a: real :: DescNullsLast(Some(a), None) && !DescNullsLast(None, Some(a))
    ensures forall a: real, b: real :: DescNullsLast(Some(a), Some(b)) <==> a >= b
  {
  }

  /** Lexicographic `ORDER BY first, second` on two text columns, ascending. */
  predicate TextPairLe(a: (string, string), b: (string, string))
  {
    TextLe(a.0, b.0) && (a.0 == b.0 ==> TextLe(a.1, b.1))
  }

  lemma TextPairLeTotal(a: (string, string), b: (string, string))
    ensures TextPairLe(a, b) || TextPairLe(b, a)
  {
    TextLeTotal(a.0, b.0);
    TextLeTotal(a.1, b.1);
  }

  lemma TextPairLeTransitive(a: (string, string), b: (string, string), c: (string, string))
    requires TextPairLe(a, b) && TextPairLe(b, c)
    ensures TextPairLe(a, c)
  {
    TextLeTransitive(a.0, b.0, c.0);
    if a.0 == c.0 {
      TextLeAntisymmetric(a.0, b.0);
      TextLeTransitive(a.1, b.1, c.1);
    }
  }
}
