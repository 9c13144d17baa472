/** The brand-versus-generic savings report (`brand_generic_sql`).

    `agg` sums cost and claims per (generic_name, brand_name); `generic_avg`
    pools cost per claim per generic_name over every variant, generic-only
    products included; the two are joined on generic_name, rows without a
    brand are dropped, and the savings of charging every brand claim at the
    pooled generic rate is computed and sorted in descending order. */
module Savings {
  import opened Nullable
  import opened Seqs
  import opened Ordering
  import opened Grouping
  import opened Schema

  /** One output row; numeric fields derived from a NULL average are NULL. */
  datatype SavingsRow = SavingsRow(
    generic: string,
    brand: Option<string>,
    brandTotalClaims: int,
    brandTotalCost: real,
    genericAvg: Option<real>,
    hypotheticalCost: Option<real>,
    potentialSavings: Option<real>)

  /** One row of the `generic_avg` CTE. */
  datatype GenericAvg = GenericAvg(generic: string, avg: Option<real>)

  function BrandKey(f: Fact): (string, Option<string>)
  {
    (f.generic, f.brand)
  }

  function GenericKey(f: Fact): string
  {
    f.generic
  }

  /** Splits a generic's facts into branded ones and generic-only ones. */
  function BrandedKey(f: Fact): (string, bool)
  {
    (f.generic, f.brand.Some?)
  }

  function AvgKey(g: GenericAvg): string
  {
    g.generic
  }

  function RowKey(r: SavingsRow): (string, Option<string>)
  {
    (r.generic, r.brand)
  }

  /** Cost per claim of a generic, pooled over all its facts whatever their brand. */
  function PooledAverage(facts: seq<Fact>, generic: string): Option<real>
  {
    var t := Tally(facts, GenericKey, FactTotals, generic);
    Average(t.cost, t.claims)
  }

  /** The `agg` CTE. */
  function BrandAgg(facts: seq<Fact>): seq<Group<(string, Option<string>)>>
  {
    GroupBy(facts, BrandKey, FactTotals)
  }

  /** The `generic_avg` CTE: one row per generic, carrying its pooled average. */
  function GenericAvgs(facts: seq<Fact>): (r: seq<GenericAvg>)
    ensures DistinctBy(r, AvgKey)
    ensures forall g :: g in r <==> Occurs(facts, GenericKey, g.generic) && g.avg == PooledAverage(facts, g.generic)
  {
    var gs := GroupBy(facts, GenericKey, FactTotals);
    var r := seq(|gs|, i requires 0 <= i < |gs| => GenericAvg(gs[i].key, Average(gs[i].totals.cost, gs[i].totals.claims)));
    assert DistinctBy(r, AvgKey) by {
      forall i, j | 0 <= i < j < |r| ensures AvgKey(r[i]) != AvgKey(r[j]) {
        assert GroupKey(gs[i]) != GroupKey(gs[j]);
      }
    }
    assert forall g :: g in r ==> Occurs(facts, GenericKey, g.generic) && g.avg == PooledAverage(facts, g.generic) by {
      forall g | g in r ensures Occurs(facts, GenericKey, g.generic) && g.avg == PooledAverage(facts, g.generic) {
        var i :| 0 <= i < |r| && r[i] == g;
        assert gs[i] in gs;
      }
    }
    assert forall g: GenericAvg :: Occurs(facts, GenericKey, g.generic) && g.avg == PooledAverage(facts, g.generic) ==> g in r by {
      forall g: GenericAvg | Occurs(facts, GenericKey, g.generic) && g.avg == PooledAverage(facts, g.generic) ensures g in r {
        var grp := Group(g.generic, Tally(facts, GenericKey, FactTotals, g.generic));
        assert grp in gs;
        var i :| 0 <= i < |gs| && gs[i] == grp;
        assert r[i] == g;
      }
    }
    r
  }

  /** The SELECT list over one joined (agg, generic_avg) pair. */
  function Project(a: Group<(string, Option<string>)>, g: GenericAvg): SavingsRow
  {
    var hypothetical := Scale(a.totals.claims as real, g.avg);
    SavingsRow(a.key.0, a.key.1, a.totals.claims, a.totals.cost, g.avg, hypothetical,
               Sub(Some(a.totals.cost), hypothetical))
  }

  /** The joined rows of one `agg` row: one per `generic_avg` row of its
      generic; at most one when `generic_avg` has one row per generic. */
  function MatchAvg(a: Group<(string, Option<string>)>, avgs: seq<GenericAvg>): (r: seq<SavingsRow>)
    ensures forall row :: row in r <==> exists g :: g in avgs && g.generic == a.key.0 && row == Project(a, g)
    ensures DistinctBy(avgs, AvgKey) ==> |r| <= 1
    decreases |avgs|
  {
    if avgs == [] then []
    else
      var rest := MatchAvg(a, avgs[1..]);
      assert forall g :: g in avgs <==> g == avgs[0] || g in avgs[1..];
      assert DistinctBy(avgs, AvgKey) ==> DistinctBy(avgs[1..], AvgKey) by {
        if DistinctBy(avgs, AvgKey) {
          forall i, j | 0 <= i < j < |avgs| - 1 ensures AvgKey(avgs[1..][i]) != AvgKey(avgs[1..][j]) {
            assert AvgKey(avgs[i + 1]) != AvgKey(avgs[j + 1]);
          }
        }
      }
      if avgs[0].generic == a.key.0 then
        assert DistinctBy(avgs, AvgKey) ==> rest == [] by {
          if DistinctBy(avgs, AvgKey) {
            forall g | g in avgs[1..] ensures g.generic != a.key.0 {
              var n :| 0 <= n < |avgs| - 1 && avgs[1..][n] == g;
              assert AvgKey(avgs[0]) != AvgKey(avgs[n + 1]);
            }
            Heads(rest);
          }
        }
        [Project(a, avgs[0])] + rest
      else rest
  }

  /** `agg a JOIN generic_avg g ON a.generic_name = g.generic_name
      WHERE a.brand_name IS NOT NULL`. */
  function JoinAvg(agg: seq<Group<(string, Option<string>)>>, avgs: seq<GenericAvg>): (r: seq<SavingsRow>)
    ensures forall row :: row in r <==>
      exists a, g :: a in agg && a.key.1.Some? && g in avgs && g.generic == a.key.0 && row == Project(a, g)
    decreases |agg|
  {
    if agg == [] then []
    else
      var rest := JoinAvg(agg[1..], avgs);
      assert forall a :: a in agg <==> a == agg[0] || a in agg[1..];
      (if agg[0].key.1.Some? then MatchAvg(agg[0], avgs) else []) + rest
  }

  /** Joining one-row-per-key inputs yields one row per (generic, brand). */
  lemma {:induction false} JoinAvgDistinct(agg: seq<Group<(string, Option<string>)>>, avgs: seq<GenericAvg>)
    requires DistinctBy(agg, GroupKey)
    requires DistinctBy(avgs, AvgKey)
    ensures DistinctBy(JoinAvg(agg, avgs), RowKey)
    decreases |agg|
  {
    if agg != [] {
      assert DistinctBy(agg[1..], GroupKey) by {
        forall i, j | 0 <= i < j < |agg| - 1 ensures GroupKey(agg[1..][i]) != GroupKey(agg[1..][j]) {
          assert GroupKey(agg[i + 1]) != GroupKey(agg[j + 1]);
        }
      }
      JoinAvgDistinct(agg[1..], avgs);
      var head := if agg[0].key.1.Some? then MatchAvg(agg[0], avgs) else [];
      var rest := JoinAvg(agg[1..], avgs);
      forall x, y | x in head && y in rest ensures RowKey(x) != RowKey(y) {
        var a, g :| a in agg[1..] && a.key.1.Some? && g in avgs && g.generic == a.key.0 && y == Project(a, g);
        var n :| 0 <= n < |agg| - 1 && agg[1..][n] == a;
        assert GroupKey(agg[0]) != GroupKey(agg[n + 1]);
      }
      Heads(head);
      DistinctByAppend(head, rest, RowKey);
    }
  }

  /** `ORDER BY potential_savings DESC`. */
  predicate SavingsBefore(x: SavingsRow, y: SavingsRow)
  {
    DescNullsLast(x.potentialSavings, y.potentialSavings)
  }

  lemma SavingsOrder()
    ensures TotalPreorder(SavingsBefore)
  {
  }

  /** In the report, rows with a savings value come first, largest savings
      first, and rows whose savings are NULL come last. */
  lemma SavingsNullsLast(claims: seq<Claim>, drugs: seq<Drug>)
    ensures var rows := Report(claims, drugs);
            forall i, j :: 0 <= i < j < |rows| ==>
              (rows[i].potentialSavings.None? ==> rows[j].potentialSavings.None?) &&
              (rows[j].potentialSavings.Some? ==>
                 rows[i].potentialSavings.Some? && rows[i].potentialSavings.value >= rows[j].potentialSavings.value)
  {
    var rows := Report(claims, drugs);
    forall i, j | 0 <= i < j < |rows|
      ensures (rows[i].potentialSavings.None? ==> rows[j].potentialSavings.None?) &&
              (rows[j].potentialSavings.Some? ==>
                 rows[i].potentialSavings.Some? && rows[i].potentialSavings.value >= rows[j].potentialSavings.value)
    {
      assert SavingsBefore(rows[i], rows[j]);
    }
  }

  /** The savings columns of a row follow from its brand totals and the
      pooled generic average with NULL propagation: both are NULL exactly
      when the average is, and otherwise hypothetical = claims * average and
      savings = cost - hypothetical. */
  ghost predicate SavingsArithmetic(r: SavingsRow)
  {
    && (r.hypotheticalCost.Some? <==> r.genericAvg.Some?)
    && (r.potentialSavings.Some? <==> r.genericAvg.Some?)
    && (r.genericAvg.Some? ==>
          && r.hypotheticalCost.value == (r.brandTotalClaims as real) * r.genericAvg.value
          && r.potentialSavings.value == r.brandTotalCost - r.hypotheticalCost.value)
  }

  /** The savings columns are determined by the other columns: a row that
      keeps the arithmetic carries exactly the null-propagating product and
      difference. */
  lemma ArithmeticDetermines(r: SavingsRow)
    requires SavingsArithmetic(r)
    ensures r.hypotheticalCost == Scale(r.brandTotalClaims as real, r.genericAvg)
    ensures r.potentialSavings == Sub(Some(r.brandTotalCost), r.hypotheticalCost)
  {
    var k := r.brandTotalClaims as real;
    if r.genericAvg.Some? {
      var h := Scale(k, r.genericAvg);
      assert h.Some? && h.value == k * r.genericAvg.value;
      assert r.hypotheticalCost.Some?;
      assert r.hypotheticalCost.value == k * r.genericAvg.value;
      assert r.hypotheticalCost.value == h.value;
      assert r.hypotheticalCost == h;
    }
  }

  lemma ProjectArithmetic(a: Group<(string, Option<string>)>, g: GenericAvg)
    ensures SavingsArithmetic(Project(a, g))
  {
  }

  /** Every joined row is branded and carries consistent savings columns. */
  lemma JoinAvgRowsWellFormed(agg: seq<Group<(string, Option<string>)>>, avgs: seq<GenericAvg>)
    ensures forall r :: r in JoinAvg(agg, avgs) ==> r.brand.Some? && SavingsArithmetic(r)
  {
    forall r | r in JoinAvg(agg, avgs) ensures r.brand.Some? && SavingsArithmetic(r) {
      var a, g :| a in agg && a.key.1.Some? && g in avgs && g.generic == a.key.0 && r == Project(a, g);
      ProjectArithmetic(a, g);
    }
  }

  /** The brand-versus-generic savings report over the claims and drugs tables. */
  function Report(claims: seq<Claim>, drugs: seq<Drug>): (rows: seq<SavingsRow>)
    ensures Sorted(rows, SavingsBefore)
    ensures forall r :: r in rows ==> r.brand.Some? && SavingsArithmetic(r)
    ensures DistinctBy(rows, RowKey)
  {
    var facts := JoinDrugs(claims, drugs);
    var joined := JoinAvg(BrandAgg(facts), GenericAvgs(facts));
    SavingsOrder();
    JoinAvgDistinct(BrandAgg(facts), GenericAvgs(facts));
    JoinAvgRowsWellFormed(BrandAgg(facts), GenericAvgs(facts));
    var rows := Sort(joined, SavingsBefore);
    DistinctByPermutation(joined, rows, RowKey);
    assert forall r :: r in rows ==> r in joined by {
      forall r | r in rows ensures r in joined {
        assert r in multiset(rows);
      }
    }
    rows
  }

  /** What one savings row must be, stated directly over the joined facts. */
  ghost predicate IsSavingsRow(facts: seq<Fact>, r: SavingsRow)
  {
    && r.brand.Some?
    && Occurs(facts, BrandKey, (r.generic, r.brand))
    && r.brandTotalClaims == Tally(facts, BrandKey, FactTotals, (r.generic, r.brand)).claims
    && r.brandTotalCost == Tally(facts, BrandKey, FactTotals, (r.generic, r.brand)).cost
    && r.genericAvg == PooledAverage(facts, r.generic)
    && SavingsArithmetic(r)
  }

  lemma JoinedIsSavingsRow(facts: seq<Fact>, r: SavingsRow)
    requires r in JoinAvg(BrandAgg(facts), GenericAvgs(facts))
    ensures IsSavingsRow(facts, r)
  {
    var a, g :| a in BrandAgg(facts) && a.key.1.Some? && g in GenericAvgs(facts) && g.generic == a.key.0 && r == Project(a, g);
    ProjectArithmetic(a, g);
  }

  lemma SavingsRowIsJoined(facts: seq<Fact>, r: SavingsRow)
    requires IsSavingsRow(facts, r)
    ensures r in JoinAvg(BrandAgg(facts), GenericAvgs(facts))
  {
    var key := (r.generic, r.brand);
    var a := Group(key, Tally(facts, BrandKey, FactTotals, key));
    assert a in BrandAgg(facts);
    var x :| x in facts && BrandKey(x) == key;
    assert GenericKey(x) == r.generic;
    var g := GenericAvg(r.generic, PooledAverage(facts, r.generic));
    assert g in GenericAvgs(facts);
    ArithmeticDetermines(r);
    assert r == Project(a, g);
  }

  /** The report holds exactly the rows `IsSavingsRow` describes: one per
      branded (generic, brand) pair, with the brand's own totals and the
      generic's pooled average. */
  lemma ReportRows(claims: seq<Claim>, drugs: seq<Drug>)
    ensures forall r :: r in Report(claims, drugs) <==> IsSavingsRow(JoinDrugs(claims, drugs), r)
  {
    var facts := JoinDrugs(claims, drugs);
    var joined := JoinAvg(BrandAgg(facts), GenericAvgs(facts));
    var rows := Report(claims, drugs);
    SavingsOrder();
    assert rows == Sort(joined, SavingsBefore);
    forall r ensures r in rows <==> IsSavingsRow(facts, r) {
      assert r in rows <==> r in multiset(rows);
      assert r in joined <==> r in multiset(joined);
      if r in joined {
        JoinedIsSavingsRow(facts, r);
      }
      if IsSavingsRow(facts, r) {
        SavingsRowIsJoined(facts, r);
      }
    }
  }

  /** Pooling: a generic's totals are those of its branded facts plus those of
      its generic-only facts, so generic-only claims move the average even
      though they never appear as rows. */
  lemma {:induction false} PooledIncludesGenericOnly(facts: seq<Fact>, generic: string)
    ensures Tally(facts, GenericKey, FactTotals, generic)
         == Plus(Tally(facts, BrandedKey, FactTotals, (generic, true)),
                 Tally(facts, BrandKey, FactTotals, (generic, None)))
    decreases |facts|
  {
    if facts != [] {
      PooledIncludesGenericOnly(facts[1..], generic);
    }
  }

  /** Reordering the claims reorders at most the output rows that tie. */
  lemma ReportOrderIndependent(c1: seq<Claim>, c2: seq<Claim>, drugs: seq<Drug>)
    requires multiset(c1) == multiset(c2)
    ensures multiset(Report(c1, drugs)) == multiset(Report(c2, drugs))
  {
    var f1 := JoinDrugs(c1, drugs);
    var f2 := JoinDrugs(c2, drugs);
    JoinDrugsPermutation(c1, c2, drugs);
    ReportRows(c1, drugs);
    ReportRows(c2, drugs);
    forall r ensures IsSavingsRow(f1, r) <==> IsSavingsRow(f2, r) {
      OccursPermutation(f1, f2, BrandKey, (r.generic, r.brand));
      TallyPermutation(f1, f2, BrandKey, FactTotals, (r.generic, r.brand));
      TallyPermutation(f1, f2, GenericKey, FactTotals, r.generic);
    }
    DistinctSameElements(Report(c1, drugs), Report(c2, drugs), RowKey);
  }
}
