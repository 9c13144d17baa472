/** `GROUP BY` with `SUM(total_cost)` and `SUM(claims_count)`, and the
    null-safe per-group average every report derives from those sums. */
module Grouping {
  import opened Nullable
  import opened Seqs

  /** The two sums a group carries. */
  datatype Totals = Totals(cost: real, claims: int)

  const Zero: Totals := Totals(0.0, 0)

  function Plus(a: Totals, b: Totals): Totals
  {
    Totals(a.cost + b.cost, a.claims + b.claims)
  }

  /** `CAST(SUM(total_cost) AS FLOAT) / NULLIF(SUM(claims_count), 0)`, exactly:
      NULL precisely when the claim count is zero, otherwise the cost per claim. */
  function Average(cost: real, claims: int): (r: Option<real>)
    ensures r.None? <==> claims == 0
    ensures r.Some? ==> r.value * (claims as real) == cost
  {
    Div(Some(cost), Some(claims as real))
  }

  /** Some row of `rows` has key `k`. */
  ghost predicate Occurs<T, K>(rows: seq<T>, key: T -> K, k: K)
  {
    exists x :: x in rows && key(x) == k
  }

  /** The totals of all rows. */
  function SumAll<T>(rows: seq<T>, measure: T -> Totals): Totals
    decreases |rows|
  {
    if rows == [] then Zero else Plus(measure(rows[0]), SumAll(rows[1..], measure))
  }

  /** The totals of the rows whose key is `k`, accumulated in one pass. */
  function Tally<T, K(==)>(rows: seq<T>, key: T -> K, measure: T -> Totals, k: K): Totals
    decreases |rows|
  {
    if rows == [] then Zero
    else if key(rows[0]) == k then Plus(measure(rows[0]), Tally(rows[1..], key, measure, k))
    else Tally(rows[1..], key, measure, k)
  }

  /** A group's totals are the sums over exactly the rows carrying its key. */
  lemma {:induction false} TallyIsSumOfSelected<T(!new), K>(rows: seq<T>, key: T -> K, measure: T -> Totals, k: K)
    ensures Tally(rows, key, measure, k) == SumAll(Select(rows, key, k), measure)
    decreases |rows|
  {
    if rows != [] {
      TallyIsSumOfSelected(rows[1..], key, measure, k);
      if key(rows[0]) == k {
        assert ([rows[0]] + Select(rows[1..], key, k))[1..] == Select(rows[1..], key, k);
      }
    }
  }

  lemma {:induction false} TallyAppend<T, K>(a: seq<T>, b: seq<T>, key: T -> K, measure: T -> Totals, k: K)
    ensures Tally(a + b, key, measure, k) == Plus(Tally(a, key, measure, k), Tally(b, key, measure, k))
    decreases |a|
  {
    if a == [] {
      assert a + b == b;
    } else {
      assert (a + b)[1..] == a[1..] + b;
      TallyAppend(a[1..], b, key, measure, k);
    }
  }

  /** A key that no row carries sums to zero. */
  lemma {:induction false} TallyAbsent<T, K>(rows: seq<T>, key: T -> K, measure: T -> Totals, k: K)
    requires !Occurs(rows, key, k)
    ensures Tally(rows, key, measure, k) == Zero
    decreases |rows|
  {
    if rows != [] {
      assert rows[0] in rows;
      assert !Occurs(rows[1..], key, k) by {
        forall x | x in rows[1..] ensures key(x) != k {
          assert x in rows;
        }
      }
      TallyAbsent(rows[1..], key, measure, k);
    }
  }

  /** Group sums do not depend on the order of the rows. */
  lemma {:induction false} TallyPermutation<T, K>(a: seq<T>, b: seq<T>, key: T -> K, measure: T -> Totals, k: K)
    requires multiset(a) == multiset(b)
    ensures Tally(a, key, measure, k) == Tally(b, key, measure, k)
    decreases |a|
  {
    if a == [] {
      assert |b| == |multiset(b)| == 0;
    } else {
      var x := a[0];
      assert x in multiset(b);
      var j :| 0 <= j < |b| && b[j] == x;
      PermutationTail(a, b, j);
      TallyPermutation(a[1..], b[..j] + b[j + 1..], key, measure, k);
      assert b == b[..j] + ([x] + b[j + 1..]);
      TallyAppend(b[..j], [x] + b[j + 1..], key, measure, k);
      TallyAppend(b[..j], b[j + 1..], key, measure, k);
      assert ([x] + b[j + 1..])[1..] == b[j + 1..];
    }
  }

  /** Occurrence of a key does not depend on the order of the rows. */
  lemma OccursPermutation<T, K>(a: seq<T>, b: seq<T>, key: T -> K, k: K)
    requires multiset(a) == multiset(b)
    ensures Occurs(a, key, k) <==> Occurs(b, key, k)
  {
    forall x ensures x in a <==> x in b {
      assert x in a <==> x in multiset(a);
      assert x in b <==> x in multiset(b);
    }
  }

  /** The distinct keys of `rows`, each once. */
  function Keys<T(!new), K(!new,==)>(rows: seq<T>, key: T -> K): (ks: seq<K>)
    ensures forall i, j :: 0 <= i < j < |ks| ==> ks[i] != ks[j]
    ensures forall k :: k in ks <==> Occurs(rows, key, k)
    decreases |rows|
  {
    if rows == [] then []
    else
      var rest := Keys(rows[1..], key);
      assert forall x :: x in rows <==> x == rows[0] || x in rows[1..];
      if key(rows[0]) in rest then rest else [key(rows[0])] + rest
  }

  /** One output row of a `GROUP BY`: the key and its sums. */
  datatype Group<K> = Group(key: K, totals: Totals)

  function GroupKey<K>(g: Group<K>): K
  {
    g.key
  }

  /** `SELECT key, SUM(...) ... GROUP BY key`: exactly one group per key
      occurring in `rows`, carrying the sums of that key's rows. */
  function GroupBy<T(!new), K(!new,==)>(rows: seq<T>, key: T -> K, measure: T -> Totals): (gs: seq<Group<K>>)
    ensures DistinctBy(gs, GroupKey)
    ensures forall g :: g in gs <==> Occurs(rows, key, g.key) && g.totals == Tally(rows, key, measure, g.key)
  {
    var ks := Keys(rows, key);
    var gs := seq(|ks|, i requires 0 <= i < |ks| => Group(ks[i], Tally(rows, key, measure, ks[i])));
    assert forall g :: g in gs ==> g.key in ks by {
      forall g | g in gs ensures g.key in ks {
        var i :| 0 <= i < |gs| && gs[i] == g;
      }
    }
    assert forall k :: k in ks ==> Group(k, Tally(rows, key, measure, k)) in gs by {
      forall k | k in ks ensures Group(k, Tally(rows, key, measure, k)) in gs {
        var i :| 0 <= i < |ks| && ks[i] == k;
        assert gs[i] == Group(k, Tally(rows, key, measure, k));
      }
    }
    gs
  }

  /** The grouped result does not depend on the order of the rows. */
  lemma GroupByPermutation<T(!new), K(!new)>(a: seq<T>, b: seq<T>, key: T -> K, measure: T -> Totals)
    requires multiset(a) == multiset(b)
    ensures forall g :: g in GroupBy(a, key, measure) <==> g in GroupBy(b, key, measure)
  {
    forall g: Group<K> ensures g in GroupBy(a, key, measure) <==> g in GroupBy(b, key, measure) {
      OccursPermutation(a, b, key, g.key);
      TallyPermutation(a, b, key, measure, g.key);
    }
  }
}
