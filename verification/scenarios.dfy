/** Worked examples, each proved against the full report it exercises. */
module Scenarios {
  import opened Nullable
  import opened Seqs
  import opened Grouping
  import opened Schema
  import Savings
  import Trend

  /** A key-distinct sequence whose every element is `x`, and which holds
      `x`, is exactly `[x]`. */
  lemma OnlyRow<T, K>(s: seq<T>, key: T -> K, x: T)
    requires DistinctBy(s, key)
    requires x in s
    requires forall y :: y in s ==> y == x
    ensures s == [x]
  {
    Heads(s);
  }

  /** Claims for one generic-only drug "x" in two years. */
  function TwoYears(year0: int, cost0: real, count0: int, year1: int, cost1: real, count1: int): seq<Claim>
  {
    [Claim(1, 7, year0, cost0, count0), Claim(1, 7, year1, cost1, count1)]
  }

  const GenericOnly := [Drug(1, None, "x")]

  function YearFact(year: int, cost: real, count: int): Fact
  {
    Fact(7, "x", None, year, cost, count)
  }

  function YearRow(year: int, avg: Option<real>): Trend.YearlyRow
  {
    Trend.YearlyRow("x", None, year, avg)
  }

  lemma TwoYearFacts(year0: int, cost0: real, count0: int, year1: int, cost1: real, count1: int)
    ensures JoinDrugs(TwoYears(year0, cost0, count0, year1, cost1, count1), GenericOnly)
         == [YearFact(year0, cost0, count0), YearFact(year1, cost1, count1)]
  {
    var claims := TwoYears(year0, cost0, count0, year1, cost1, count1);
    assert DrugRowsOf(claims[0], GenericOnly) == [YearFact(year0, cost0, count0)];
    assert DrugRowsOf(claims[1], GenericOnly) == [YearFact(year1, cost1, count1)];
    assert claims == [claims[0]] + [claims[1]];
    JoinDrugsAppend([claims[0]], [claims[1]], GenericOnly);
    assert [claims[0]][1..] == [] && [claims[1]][1..] == [];
  }

  /** Each year forms its own group, carrying its own cost per claim. */
  lemma TwoYearYearly(year0: int, cost0: real, count0: int, year1: int, cost1: real, count1: int)
    requires year0 < year1
    ensures forall y ::
              y in Trend.Yearly([YearFact(year0, cost0, count0), YearFact(year1, cost1, count1)]) <==>
              y == YearRow(year0, Average(cost0, count0)) || y == YearRow(year1, Average(cost1, count1))
  {
    var f0 := YearFact(year0, cost0, count0);
    var f1 := YearFact(year1, cost1, count1);
    var y0 := YearRow(year0, Average(cost0, count0));
    var y1 := YearRow(year1, Average(cost1, count1));
    var facts := [f0, f1];
    var yearly := Trend.Yearly(facts);
    var k0 := Trend.YearlyKey(y0);
    var k1 := Trend.YearlyKey(y1);
    assert facts[1..] == [f1] && facts[1..][1..] == [];
    assert Tally([], Trend.YearKey, FactTotals, k0) == Zero;
    assert Tally([], Trend.YearKey, FactTotals, k1) == Zero;
    assert Tally([f1], Trend.YearKey, FactTotals, k0) == Zero;
    assert Tally([f1], Trend.YearKey, FactTotals, k1) == Totals(cost1, count1);
    assert Tally(facts, Trend.YearKey, FactTotals, k0) == Totals(cost0, count0);
    assert Tally(facts, Trend.YearKey, FactTotals, k1) == Totals(cost1, count1);
    assert f0 in facts && f1 in facts;
    assert y0 in yearly && y1 in yearly;
    forall y | y in yearly ensures y == y0 || y == y1 {
      assert Trend.IsYearlyRow(facts, y);
      var f :| f in facts && Trend.YearKey(f) == Trend.YearlyKey(y);
    }
  }

  /** The earlier year is the first of its partition; the later one follows
      it, whatever the gap between them. */
  lemma TwoYearLag(yearly: seq<Trend.YearlyRow>, year0: int, avg0: Option<real>, year1: int, avg1: Option<real>)
    requires year0 < year1
    requires DistinctBy(yearly, Trend.YearlyKey)
    requires forall y :: y in yearly <==> y == YearRow(year0, avg0) || y == YearRow(year1, avg1)
    ensures Trend.PrevAvg(yearly, YearRow(year0, avg0)) == None
    ensures Trend.PrevAvg(yearly, YearRow(year1, avg1)) == avg0
  {
    var y0 := YearRow(year0, avg0);
    var y1 := YearRow(year1, avg1);
    assert forall p :: !Trend.IsPredecessor(yearly, p, y0);
    assert Trend.IsPredecessor(yearly, y0, y1);
    forall p | Trend.IsPredecessor(yearly, p, y1) ensures p == y0 {
      Trend.PredecessorUnique(yearly, p, y0, y1);
    }
  }

  /** The trend rows of two years of one drug: the earlier year never has a
      predecessor, and the later one has one exactly when the earlier
      year's average is not NULL. */
  lemma TwoYearRows(year0: int, cost0: real, count0: int, year1: int, cost1: real, count1: int)
    requires year0 < year1
    ensures var avg0 := Average(cost0, count0);
            var avg1 := Average(cost1, count1);
            forall t :: t in Trend.Report(TwoYears(year0, cost0, count0, year1, cost1, count1), GenericOnly) <==>
              avg0.Some? && t == Trend.TrendRow("x", None, year1, avg1, avg0, Div(Sub(avg1, avg0), avg0))
  {
    var avg0 := Average(cost0, count0);
    var avg1 := Average(cost1, count1);
    TwoYearFacts(year0, cost0, count0, year1, cost1, count1);
    TwoYearYearly(year0, cost0, count0, year1, cost1, count1);
    var yearly := Trend.Yearly([YearFact(year0, cost0, count0), YearFact(year1, cost1, count1)]);
    TwoYearLag(yearly, year0, avg0, year1, avg1);
    forall t ensures Trend.IsTrendRow(yearly, t) <==>
      avg0.Some? && t == Trend.TrendRow("x", None, year1, avg1, avg0, Div(Sub(avg1, avg0), avg0))
    {
      var y := Trend.YearlyRow(t.generic, t.brand, t.year, t.avgCostPerClaim);
      if y == YearRow(year1, avg1) {
        assert t.generic == "x" && t.brand == None && t.year == year1 && t.avgCostPerClaim == avg1;
      }
    }
  }

  /** When the earlier year's average is not NULL the report is exactly
      the later year's row. */
  lemma TwoYearSingleRow(year0: int, cost0: real, count0: int, year1: int, cost1: real, count1: int)
    requires year0 < year1 && count0 != 0
    ensures var avg0 := Average(cost0, count0);
            var avg1 := Average(cost1, count1);
            Trend.Report(TwoYears(year0, cost0, count0, year1, cost1, count1), GenericOnly)
              == [Trend.TrendRow("x", None, year1, avg1, avg0, Div(Sub(avg1, avg0), avg0))]
  {
    var avg0 := Average(cost0, count0);
    var avg1 := Average(cost1, count1);
    var t := Trend.TrendRow("x", None, year1, avg1, avg0, Div(Sub(avg1, avg0), avg0));
    var rows := Trend.Report(TwoYears(year0, cost0, count0, year1, cost1, count1), GenericOnly);
    TwoYearRows(year0, cost0, count0, year1, cost1, count1);
    assert t in rows;
    OnlyRow(rows, Trend.TrendKey, t);
  }

  /** 100.0 over 10 claims is 10.0 a claim; 240.0 over 20 is 12.0; and
      12.0 against 10.0 is a change of 0.2. */
  lemma Figures()
    ensures Average(100.0, 10) == Some(10.0)
    ensures Average(240.0, 20) == Some(12.0)
    ensures Div(Sub(Some(12.0), Some(10.0)), Some(10.0)) == Some(0.2)
  {
  }

  const ConsecutiveYears := TwoYears(2020, 100.0, 10, 2021, 240.0, 20)

  /** 100.0 over 10 claims in 2020, then 240.0 over 20 in 2021: the report
      holds one row, 2021 at 12.0 against 10.0, a change of 0.2. */
  lemma TwoYearTrend()
    ensures Trend.Report(ConsecutiveYears, GenericOnly)
         == [Trend.TrendRow("x", None, 2021, Some(12.0), Some(10.0), Some(0.2))]
  {
    TwoYearSingleRow(2020, 100.0, 10, 2021, 240.0, 20);
    Figures();
  }

  const EmptyFirstYear := TwoYears(2020, 0.0, 0, 2021, 240.0, 20)

  /** A first year with no claims has a NULL average, so the second year's
      LAG value is NULL and the report is empty. */
  lemma ZeroClaimYearDropsNext()
    ensures Trend.Report(EmptyFirstYear, GenericOnly) == []
  {
    var rows := Trend.Report(EmptyFirstYear, GenericOnly);
    TwoYearRows(2020, 0.0, 0, 2021, 240.0, 20);
    assert Average(0.0, 0) == None;
    Heads(rows);
  }

  const GapYears := TwoYears(2019, 100.0, 10, 2021, 240.0, 20)

  /** With no claims in 2020, the 2021 row is compared with 2019. */
  lemma GapYearSkipped()
    ensures Trend.Report(GapYears, GenericOnly)
         == [Trend.TrendRow("x", None, 2021, Some(12.0), Some(10.0), Some(0.2))]
  {
    TwoYearSingleRow(2019, 100.0, 10, 2021, 240.0, 20);
    Figures();
  }

  /** A generic "x" sold under brand "B" (500.0 over 50 claims) and as a
      generic-only product (300.0 over 100 claims). */
  const BrandClaims := [Claim(1, 7, 2020, 500.0, 50), Claim(2, 7, 2020, 300.0, 100)]
  const BrandAndGeneric := [Drug(1, Some("B"), "x"), Drug(2, None, "x")]
  const BrandFact := Fact(7, "x", Some("B"), 2020, 500.0, 50)
  const GenericFact := Fact(7, "x", None, 2020, 300.0, 100)

  lemma BrandFacts()
    ensures JoinDrugs(BrandClaims, BrandAndGeneric) == [BrandFact, GenericFact]
  {
    var claims := BrandClaims;
    var drugs := BrandAndGeneric;
    assert drugs[1..] == [drugs[1]] && drugs[1..][1..] == [];
    assert DrugRowsOf(claims[0], drugs[1..][1..]) == [];
    assert DrugRowsOf(claims[0], drugs[1..]) == [];
    assert DrugRowsOf(claims[0], drugs) == [BrandFact];
    assert DrugRowsOf(claims[1], drugs[1..][1..]) == [];
    assert DrugRowsOf(claims[1], drugs[1..]) == [GenericFact];
    assert DrugRowsOf(claims[1], drugs) == [GenericFact];
    assert claims == [claims[0]] + [claims[1]];
    JoinDrugsAppend([claims[0]], [claims[1]], drugs);
    assert [claims[0]][1..] == [] && [claims[1]][1..] == [];
  }

  /** The brand's own totals, and the generic's totals pooled over both products. */
  lemma BrandTotals()
    ensures Tally([BrandFact, GenericFact], Savings.BrandKey, FactTotals, ("x", Some("B"))) == Totals(500.0, 50)
    ensures Tally([BrandFact, GenericFact], Savings.GenericKey, FactTotals, "x") == Totals(800.0, 150)
    ensures Savings.PooledAverage([BrandFact, GenericFact], "x") == Some(16.0 / 3.0)
  {
    var facts := [BrandFact, GenericFact];
    assert facts[1..] == [GenericFact] && facts[1..][1..] == [];
    assert Tally([], Savings.BrandKey, FactTotals, ("x", Some("B"))) == Zero;
    assert Tally([GenericFact], Savings.BrandKey, FactTotals, ("x", Some("B"))) == Zero;
    assert Tally([], Savings.GenericKey, FactTotals, "x") == Zero;
    assert Tally([GenericFact], Savings.GenericKey, FactTotals, "x") == Totals(300.0, 100);
  }

  const BrandSavings := Savings.SavingsRow("x", Some("B"), 50, 500.0, Some(16.0 / 3.0), Some(800.0 / 3.0), Some(700.0 / 3.0))

  /** Only the branded product yields a row, priced at the pooled rate 16/3. */
  lemma BrandRows(rows: seq<Savings.SavingsRow>)
    requires DistinctBy(rows, Savings.RowKey)
    requires forall r :: r in rows <==> Savings.IsSavingsRow([BrandFact, GenericFact], r)
    ensures rows == [BrandSavings]
  {
    var facts := [BrandFact, GenericFact];
    BrandTotals();
    assert BrandFact in facts;
    assert Savings.IsSavingsRow(facts, BrandSavings);
    forall r | r in rows ensures r == BrandSavings {
      assert Savings.IsSavingsRow(facts, r);
      var f :| f in facts && Savings.BrandKey(f) == (r.generic, r.brand);
    }
    OnlyRow(rows, Savings.RowKey, BrandSavings);
  }

  /** Charging the brand's 50 claims at the pooled 16/3 costs 800/3, saving
      700/3 of the brand's 500.0; the generic-only product has no row of its own. */
  lemma BrandSavingsExample()
    ensures Savings.Report(BrandClaims, BrandAndGeneric) == [BrandSavings]
  {
    BrandFacts();
    Savings.ReportRows(BrandClaims, BrandAndGeneric);
    BrandRows(Savings.Report(BrandClaims, BrandAndGeneric));
  }
}
