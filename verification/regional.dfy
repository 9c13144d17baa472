/** The regional variance report (`regional_sql`): claims joined to their
    drug and provider, summed per (state, generic_name), with the null-safe
    cost per claim, ordered by generic_name then state. */
module Regional {
  import opened Nullable
  import opened Seqs
  import opened Ordering
  import opened Grouping
  import opened Schema

  /** One output row. */
  datatype RegionalRow = RegionalRow(
    state: string,
    generic: string,
    totalCost: real,
    totalClaims: int,
    avgCostPerClaim: Option<real>)

  /** `GROUP BY pr.state, d.generic_name`. */
  function RegionKey(l: Located): (string, string)
  {
    (l.state, l.fact.generic)
  }

  function RowKey(r: RegionalRow): (string, string)
  {
    (r.state, r.generic)
  }

  /** `ORDER BY d.generic_name, pr.state`. */
  predicate RegionalBefore(x: RegionalRow, y: RegionalRow)
  {
    TextPairLe((x.generic, x.state), (y.generic, y.state))
  }

  lemma RegionalOrder()
    ensures TotalPreorder(RegionalBefore)
  {
    forall x, y ensures RegionalBefore(x, y) || RegionalBefore(y, x) {
      TextPairLeTotal((x.generic, x.state), (y.generic, y.state));
    }
    forall x, y, z | RegionalBefore(x, y) && RegionalBefore(y, z) ensures RegionalBefore(x, z) {
      TextPairLeTransitive((x.generic, x.state), (y.generic, y.state), (z.generic, z.state));
    }
  }

  /** The SELECT list over one group. */
  function Project(g: Group<(string, string)>): RegionalRow
  {
    RegionalRow(g.key.0, g.key.1, g.totals.cost, g.totals.claims, Average(g.totals.cost, g.totals.claims))
  }

  /** What one regional row must be, stated directly over the joined rows:
      a (state, generic) pair that occurs, the sums over exactly the rows of
      that pair, and the cost per claim derived from them. */
  ghost predicate IsRegionalRow(located: seq<Located>, r: RegionalRow)
  {
    && Occurs(located, RegionKey, RowKey(r))
    && Totals(r.totalCost, r.totalClaims) == Tally(located, RegionKey, LocatedTotals, RowKey(r))
    && r.avgCostPerClaim == Average(r.totalCost, r.totalClaims)
  }

  /** The grouped rows before ordering. */
  function Groups(located: seq<Located>): (r: seq<RegionalRow>)
    ensures DistinctBy(r, RowKey)
    ensures forall row :: row in r <==> IsRegionalRow(located, row)
  {
    var gs := GroupBy(located, RegionKey, LocatedTotals);
    var r := seq(|gs|, i requires 0 <= i < |gs| => Project(gs[i]));
    assert DistinctBy(r, RowKey) by {
      forall i, j | 0 <= i < j < |r| ensures RowKey(r[i]) != RowKey(r[j]) {
        assert GroupKey(gs[i]) != GroupKey(gs[j]);
      }
    }
    assert forall row :: row in r ==> IsRegionalRow(located, row) by {
      forall row | row in r ensures IsRegionalRow(located, row) {
        var i :| 0 <= i < |r| && r[i] == row;
        assert gs[i] in gs;
      }
    }
    assert forall row: RegionalRow :: IsRegionalRow(located, row) ==> row in r by {
      forall row: RegionalRow | IsRegionalRow(located, row) ensures row in r {
        var grp := Group(RowKey(row), Tally(located, RegionKey, LocatedTotals, RowKey(row)));
        assert grp in gs;
        var i :| 0 <= i < |gs| && gs[i] == grp;
        assert r[i] == row;
      }
    }
    r
  }

  /** The regional variance report over the claims, drugs and providers tables. */
  function Report(claims: seq<Claim>, drugs: seq<Drug>, providers: seq<Provider>): (rows: seq<RegionalRow>)
    ensures Sorted(rows, RegionalBefore)
    ensures DistinctBy(rows, RowKey)
    ensures forall r :: r in rows <==> IsRegionalRow(JoinAll(claims, drugs, providers), r)
  {
    var grouped := Groups(JoinAll(claims, drugs, providers));
    RegionalOrder();
    var rows := Sort(grouped, RegionalBefore);
    DistinctByPermutation(grouped, rows, RowKey);
    assert forall r :: r in rows <==> r in grouped by {
      forall r ensures r in rows <==> r in grouped {
        assert r in rows <==> r in multiset(rows);
        assert r in grouped <==> r in multiset(grouped);
      }
    }
    rows
  }

  /** The average column is NULL exactly for a zero claim total, and
      otherwise is the cost per claim. */
  ghost predicate AverageColumnHolds(r: RegionalRow)
  {
    && (r.avgCostPerClaim.None? <==> r.totalClaims == 0)
    && (r.avgCostPerClaim.Some? ==> r.avgCostPerClaim.value * (r.totalClaims as real) == r.totalCost)
  }

  lemma RowAverage(r: RegionalRow)
    requires r.avgCostPerClaim == Average(r.totalCost, r.totalClaims)
    ensures AverageColumnHolds(r)
  {
  }

  lemma AverageColumn(claims: seq<Claim>, drugs: seq<Drug>, providers: seq<Provider>)
    ensures forall r :: r in Report(claims, drugs, providers) ==> AverageColumnHolds(r)
  {
    var rows := Report(claims, drugs, providers);
    forall r | r in rows ensures AverageColumnHolds(r) {
      assert IsRegionalRow(JoinAll(claims, drugs, providers), r);
      RowAverage(r);
    }
  }

  /** Claims whose joined rows all lie in other states leave the rows of
      state `s` unchanged. */
  lemma StateIsolation(claims: seq<Claim>, extra: seq<Claim>, drugs: seq<Drug>, providers: seq<Provider>, s: string)
    requires forall l :: l in JoinAll(extra, drugs, providers) ==> l.state != s
    ensures forall r: RegionalRow :: r.state == s ==>
      (r in Report(claims + extra, drugs, providers) <==> r in Report(claims, drugs, providers))
  {
    var base := JoinAll(claims, drugs, providers);
    var more := JoinAll(extra, drugs, providers);
    JoinAllAppend(claims, extra, drugs, providers);
    forall r: RegionalRow | r.state == s
      ensures IsRegionalRow(base + more, r) <==> IsRegionalRow(base, r)
    {
      assert !Occurs(more, RegionKey, RowKey(r));
      TallyAbsent(more, RegionKey, LocatedTotals, RowKey(r));
      TallyAppend(base, more, RegionKey, LocatedTotals, RowKey(r));
      assert Occurs(base + more, RegionKey, RowKey(r)) <==> Occurs(base, RegionKey, RowKey(r)) by {
        forall l ensures l in base + more <==> l in base || l in more {
        }
      }
    }
  }

  /** Reordering the claims yields the same rows. */
  lemma ReportOrderIndependent(c1: seq<Claim>, c2: seq<Claim>, drugs: seq<Drug>, providers: seq<Provider>)
    requires multiset(c1) == multiset(c2)
    ensures multiset(Report(c1, drugs, providers)) == multiset(Report(c2, drugs, providers))
  {
    var l1 := JoinAll(c1, drugs, providers);
    var l2 := JoinAll(c2, drugs, providers);
    JoinAllPermutation(c1, c2, drugs, providers);
    forall r ensures IsRegionalRow(l1, r) <==> IsRegionalRow(l2, r) {
      OccursPermutation(l1, l2, RegionKey, RowKey(r));
      TallyPermutation(l1, l2, RegionKey, LocatedTotals, RowKey(r));
    }
    DistinctSameElements(Report(c1, drugs, providers), Report(c2, drugs, providers), RowKey);
  }
}
