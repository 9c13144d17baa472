/** Sequence utilities shared by the joins, the group-by and the window
    computation: filtering by a key, flat-mapping, and key-distinctness. */
module Seqs {

  /** No two elements of `s` share a key. */
  ghost predicate DistinctBy<T, K>(s: seq<T>, key: T -> K)
  {
    forall i, j :: 0 <= i < j < |s| ==> key(s[i]) != key(s[j])
  }

  /** Names the first two elements, for proofs that a sequence is short. */
  lemma Heads<T>(s: seq<T>)
    ensures |s| >= 1 ==> s[0] in s
    ensures |s| >= 2 ==> s[1] in s
  {
  }

  /** The elements of `s` whose key is `k`, in their original order. */
  function Select<T(!new), K(==)>(s: seq<T>, key: T -> K, k: K): (r: seq<T>)
    ensures forall x :: x in r <==> x in s && key(x) == k
    decreases |s|
  {
    if s == [] then []
    else if key(s[0]) == k then [s[0]] + Select(s[1..], key, k)
    else Select(s[1..], key, k)
  }

  /** Concatenation of `f(x)` for every `x` of `s`, in order. */
  function FlatMap<A(!new), B(!new)>(s: seq<A>, f: A -> seq<B>): (r: seq<B>)
    ensures forall y :: y in r <==> exists x :: x in s && y in f(x)
    decreases |s|
  {
    if s == [] then []
    else
      var r := f(s[0]) + FlatMap(s[1..], f);
      assert forall x :: x in s <==> x == s[0] || x in s[1..];
      r
  }

  lemma {:induction false} FlatMapAppend<A(!new), B(!new)>(a: seq<A>, b: seq<A>, f: A -> seq<B>)
    ensures FlatMap(a + b, f) == FlatMap(a, f) + FlatMap(b, f)
    decreases |a|
  {
    if a == [] {
      assert a + b == b;
    } else {
      assert (a + b)[1..] == a[1..] + b;
      FlatMapAppend(a[1..], b, f);
    }
  }

  /** Removing the head of `a` and a matching element of its permutation
      `b` leaves permutations of each other. */
  lemma PermutationTail<T>(a: seq<T>, b: seq<T>, j: int)
    requires multiset(a) == multiset(b)
    requires |a| > 0 && 0 <= j < |b| && b[j] == a[0]
    ensures multiset(b[..j] + b[j + 1..]) == multiset(a[1..])
  {
    var x := a[0];
    assert b == b[..j] + [x] + b[j + 1..];
    assert a == [x] + a[1..];
    assert multiset(b[..j] + b[j + 1..]) == multiset(b) - multiset{x};
    assert multiset(a[1..]) == multiset(a) - multiset{x};
  }

  /** Flat-mapping does not depend on the order of the input. */
  lemma {:induction false} FlatMapPermutation<A(!new), B(!new)>(a: seq<A>, b: seq<A>, f: A -> seq<B>)
    requires multiset(a) == multiset(b)
    ensures multiset(FlatMap(a, f)) == multiset(FlatMap(b, f))
    decreases |a|
  {
    if a == [] {
      assert |b| == |multiset(b)| == 0;
    } else {
      var x := a[0];
      assert x in multiset(b);
      var j :| 0 <= j < |b| && b[j] == x;
      PermutationTail(a, b, j);
      FlatMapPermutation(a[1..], b[..j] + b[j + 1..], f);
      assert b == b[..j] + ([x] + b[j + 1..]);
      FlatMapAppend(b[..j], [x] + b[j + 1..], f);
      FlatMapAppend([x], b[j + 1..], f);
      FlatMapAppend(b[..j], b[j + 1..], f);
      assert FlatMap([x], f) == f(x) by {
        assert [x][1..] == [];
      }
      assert FlatMap(a, f) == f(x) + FlatMap(a[1..], f);
    }
  }

  /** Elements distinct by a key are distinct values, so each occurs once. */
  lemma {:induction false} DistinctByCounts<T, K>(s: seq<T>, key: T -> K, x: T)
    requires DistinctBy(s, key)
    ensures multiset(s)[x] <= 1
    decreases |s|
  {
    if s != [] {
      assert s == [s[0]] + s[1..];
      assert DistinctBy(s[1..], key) by {
        forall i, j | 0 <= i < j < |s| - 1 ensures key(s[1..][i]) != key(s[1..][j]) {
          assert key(s[i + 1]) != key(s[j + 1]);
        }
      }
      DistinctByCounts(s[1..], key, x);
      if x == s[0] {
        forall m | 0 <= m < |s| - 1 ensures s[1..][m] != x {
          assert key(s[0]) != key(s[m + 1]);
        }
        assert x !in s[1..];
      }
    }
  }

  /** An element occurring at most once cannot sit at two positions. */
  lemma CountBoundsPosition<T>(s: seq<T>, i: int, j: int)
    requires 0 <= i < j < |s|
    requires multiset(s)[s[i]] <= 1
    ensures s[i] != s[j]
  {
    assert s == s[..j] + s[j..];
    assert s[..j][i] == s[i];
    assert s[j..][0] == s[j];
  }

  /** Reordering keeps elements distinct by key. */
  lemma DistinctByPermutation<T, K>(a: seq<T>, b: seq<T>, key: T -> K)
    requires multiset(a) == multiset(b)
    requires DistinctBy(a, key)
    ensures DistinctBy(b, key)
  {
    forall i, j | 0 <= i < j < |b| ensures key(b[i]) != key(b[j]) {
      DistinctByCounts(a, key, b[i]);
      CountBoundsPosition(b, i, j);
      assert b[i] in multiset(a) && b[j] in multiset(a);
      var p :| 0 <= p < |a| && a[p] == b[i];
      var q :| 0 <= q < |a| && a[q] == b[j];
      if p < q {
        assert key(a[p]) != key(a[q]);
      } else {
        assert key(a[q]) != key(a[p]);
      }
    }
  }

  /** Selecting a subsequence keeps elements distinct by key. */
  lemma {:induction false} SelectDistinct<T(!new), K, L>(s: seq<T>, key: T -> K, k: K, id: T -> L)
    requires DistinctBy(s, id)
    ensures DistinctBy(Select(s, key, k), id)
    decreases |s|
  {
    if s != [] {
      assert DistinctBy(s[1..], id) by {
        forall i, j | 0 <= i < j < |s| - 1 ensures id(s[1..][i]) != id(s[1..][j]) {
          assert id(s[i + 1]) != id(s[j + 1]);
        }
      }
      SelectDistinct(s[1..], key, k, id);
      if key(s[0]) == k {
        var rest := Select(s[1..], key, k);
        forall m | 0 <= m < |rest| ensures id(s[0]) != id(rest[m]) {
          assert rest[m] in s[1..];
          var n :| 0 <= n < |s| - 1 && s[1..][n] == rest[m];
          assert id(s[0]) != id(s[n + 1]);
        }
        var r := [s[0]] + rest;
        forall i, j | 0 <= i < j < |r| ensures id(r[i]) != id(r[j]) {
          if i == 0 {
            assert r[j] == rest[j - 1];
          } else {
            assert r[i] == rest[i - 1] && r[j] == rest[j - 1];
          }
        }
      }
    }
  }

  /** Concatenating sequences whose keys are disjoint keeps keys distinct. */
  lemma DistinctByAppend<T, K>(a: seq<T>, b: seq<T>, key: T -> K)
    requires DistinctBy(a, key) && DistinctBy(b, key)
    requires forall x, y :: x in a && y in b ==> key(x) != key(y)
    ensures DistinctBy(a + b, key)
  {
    var r := a + b;
    forall i, j | 0 <= i < j < |r| ensures key(r[i]) != key(r[j]) {
      if j < |a| {
        assert r[i] == a[i] && r[j] == a[j];
      } else if i < |a| {
        assert r[i] == a[i] && r[j] == b[j - |a|];
        assert a[i] in a && b[j - |a|] in b;
      } else {
        assert r[i] == b[i - |a|] && r[j] == b[j - |a|];
      }
    }
  }

  /** Two key-distinct sequences with the same elements are permutations of
      each other. */
  lemma DistinctSameElements<T, K>(a: seq<T>, b: seq<T>, key: T -> K)
    requires DistinctBy(a, key) && DistinctBy(b, key)
    requires forall x :: x in a <==> x in b
    ensures multiset(a) == multiset(b)
  {
    forall x ensures multiset(a)[x] == multiset(b)[x] {
      DistinctByCounts(a, key, x);
      DistinctByCounts(b, key, x);
      assert x in a <==> x in multiset(a);
      assert x in b <==> x in multiset(b);
    }
  }

  /** The tail of a key-distinct sequence is key-distinct and avoids the head's key. */
  lemma DistinctByTail<T, K>(s: seq<T>, key: T -> K)
    requires |s| > 0 && DistinctBy(s, key)
    ensures DistinctBy(s[1..], key)
    ensures forall x :: x in s[1..] ==> key(x) != key(s[0])
  {
    forall i, j | 0 <= i < j < |s| - 1 ensures key(s[1..][i]) != key(s[1..][j]) {
      assert key(s[i + 1]) != key(s[j + 1]);
    }
    forall x | x in s[1..] ensures key(x) != key(s[0]) {
      var n :| 0 <= n < |s| - 1 && s[1..][n] == x;
      assert key(s[0]) != key(s[n + 1]);
    }
  }

  /** In a key-distinct sequence the key identifies the element. */
  lemma DistinctByUnique<T, K>(s: seq<T>, key: T -> K, x: T, y: T)
    requires DistinctBy(s, key)
    requires x in s && y in s && key(x) == key(y)
    ensures x == y
  {
  }

  /** Flat-mapping distinct-keyed pieces whose keys never meet across pieces
      gives a key-distinct result. */
  lemma {:induction false} FlatMapDistinct<A(!new), B(!new), K>(ps: seq<A>, f: A -> seq<B>, key: B -> K)
    requires forall i :: 0 <= i < |ps| ==> DistinctBy(f(ps[i]), key)
    requires forall i, j :: 0 <= i < j < |ps| ==> forall y, z :: y in f(ps[i]) && z in f(ps[j]) ==> key(y) != key(z)
    ensures DistinctBy(FlatMap(ps, f), key)
    decreases |ps|
  {
    if ps != [] {
      var rest := ps[1..];
      assert forall i :: 0 <= i < |rest| ==> rest[i] == ps[i + 1];
      FlatMapDistinct(rest, f, key);
      assert DistinctBy(f(ps[0]), key);
      forall y, z | y in f(ps[0]) && z in FlatMap(rest, f) ensures key(y) != key(z) {
        var x :| x in rest && z in f(x);
        var n :| 0 <= n < |rest| && rest[n] == x;
        assert 0 < n + 1 < |ps| && ps[n + 1] == x;
      }
      DistinctByAppend(f(ps[0]), FlatMap(rest, f), key);
    }
  }
}
