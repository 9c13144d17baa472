/** The year-over-year trend report (`yoy_sql`): per (generic_name,
    brand_name, year) cost per claim, the cost per claim of the preceding
    year present in the same (generic_name, brand_name) partition, and the
    relative change between them, for the rows that have a non-NULL
    predecessor, ordered by the change descending. */
module Trend {
  import opened Nullable
  import opened Seqs
  import opened Ordering
  import opened Grouping
  import opened Schema

  /** A row of the `yearly` CTE. */
  datatype YearlyRow = YearlyRow(generic: string, brand: Option<string>, year: int, avg: Option<real>)

  /** A row of the `lagged` CTE: a yearly row and its `LAG` value. */
  datatype LaggedRow = LaggedRow(row: YearlyRow, prev: Option<real>)

  /** One output row. */
  datatype TrendRow = TrendRow(
    generic: string,
    brand: Option<string>,
    year: int,
    avgCostPerClaim: Option<real>,
    prevAvgCostPerClaim: Option<real>,
    yoyChange: Option<real>)

  /** `GROUP BY d.generic_name, d.brand_name, p.year`. */
  function YearKey(f: Fact): (string, Option<string>, int)
  {
    (f.generic, f.brand, f.year)
  }

  function YearlyKey(y: YearlyRow): (string, Option<string>, int)
  {
    (y.generic, y.brand, y.year)
  }

  function LaggedKey(l: LaggedRow): (string, Option<string>, int)
  {
    YearlyKey(l.row)
  }

  function TrendKey(t: TrendRow): (string, Option<string>, int)
  {
    (t.generic, t.brand, t.year)
  }

  /** `PARTITION BY y.generic_name, y.brand_name`. */
  function PartitionOf(y: YearlyRow): (string, Option<string>)
  {
    (y.generic, y.brand)
  }

  /** What one `yearly` row must be: a (generic, brand, year) that occurs in
      the joined rows, with the cost per claim of exactly those rows. */
  ghost predicate IsYearlyRow(facts: seq<Fact>, y: YearlyRow)
  {
    && Occurs(facts, YearKey, YearlyKey(y))
    && var t := Tally(facts, YearKey, FactTotals, YearlyKey(y));
       y.avg == Average(t.cost, t.claims)
  }

  /** The `yearly` CTE. */
  function Yearly(facts: seq<Fact>): (ys: seq<YearlyRow>)
    ensures DistinctBy(ys, YearlyKey)
    ensures forall y :: y in ys <==> IsYearlyRow(facts, y)
  {
    var gs := GroupBy(facts, YearKey, FactTotals);
    var ys := seq(|gs|, i requires 0 <= i < |gs| =>
      YearlyRow(gs[i].key.0, gs[i].key.1, gs[i].key.2, Average(gs[i].totals.cost, gs[i].totals.claims)));
    assert DistinctBy(ys, YearlyKey) by {
      forall i, j | 0 <= i < j < |ys| ensures YearlyKey(ys[i]) != YearlyKey(ys[j]) {
        assert GroupKey(gs[i]) != GroupKey(gs[j]);
      }
    }
    assert forall y :: y in ys ==> IsYearlyRow(facts, y) by {
      forall y | y in ys ensures IsYearlyRow(facts, y) {
        var i :| 0 <= i < |ys| && ys[i] == y;
        assert gs[i] in gs;
      }
    }
    assert forall y: YearlyRow :: IsYearlyRow(facts, y) ==> y in ys by {
      forall y: YearlyRow | IsYearlyRow(facts, y) ensures y in ys {
        var grp := Group(YearlyKey(y), Tally(facts, YearKey, FactTotals, YearlyKey(y)));
        assert grp in gs;
        var i :| 0 <= i < |gs| && gs[i] == grp;
        assert ys[i] == y;
      }
    }
    ys
  }

  /** `ORDER BY y.year` inside a partition. */
  predicate ByYear(a: YearlyRow, b: YearlyRow)
  {
    a.year <= b.year
  }

  lemma ByYearOrder()
    ensures TotalPreorder(ByYear)
  {
  }

  /** `p` is the row `LAG` reads for `y`: in the same partition, of an
      earlier year, and no other row of the partition lies between them. */
  ghost predicate IsPredecessor(rows: seq<YearlyRow>, p: YearlyRow, y: YearlyRow)
  {
    && p in rows
    && PartitionOf(p) == PartitionOf(y)
    && p.year < y.year
    && forall q :: q in rows && PartitionOf(q) == PartitionOf(y) && q.year < y.year ==> q.year <= p.year
  }

  /** The value `LAG(avg_cost_per_claim)` must give for `y`: the average of
      its predecessor, or NULL for the first year of its partition. */
  ghost function PrevAvg(rows: seq<YearlyRow>, y: YearlyRow): Option<real>
  {
    if exists p :: IsPredecessor(rows, p, y) then
      var p :| IsPredecessor(rows, p, y); p.avg
    else None
  }

  /** With distinct keys a row has at most one predecessor. */
  lemma PredecessorUnique(rows: seq<YearlyRow>, p: YearlyRow, q: YearlyRow, y: YearlyRow)
    requires DistinctBy(rows, YearlyKey)
    requires IsPredecessor(rows, p, y) && IsPredecessor(rows, q, y)
    ensures p == q
  {
    assert p.year <= q.year && q.year <= p.year;
    DistinctByUnique(rows, YearlyKey, p, q);
  }

  /** Walks a year-ordered partition, pairing each row with the average of
      the row before it; `prior` stands for the row before the first. */
  function Scan(s: seq<YearlyRow>, prior: Option<real>): (ls: seq<LaggedRow>)
    ensures |ls| == |s|
    ensures forall i :: 0 <= i < |s| ==> ls[i].row == s[i]
    ensures |s| > 0 ==> ls[0].prev == prior
    ensures forall i :: 0 < i < |s| ==> ls[i].prev == s[i - 1].avg
    decreases |s|
  {
    if s == [] then []
    else [LaggedRow(s[0], prior)] + Scan(s[1..], s[0].avg)
  }

  /** One partition, ordered by year. */
  function PartitionRows(yearly: seq<YearlyRow>, p: (string, Option<string>)): seq<YearlyRow>
  {
    ByYearOrder();
    Sort(Select(yearly, PartitionOf, p), ByYear)
  }

  /** `LAG(...) OVER (PARTITION BY ... ORDER BY y.year)` over one partition. */
  function LagPartition(yearly: seq<YearlyRow>, p: (string, Option<string>)): seq<LaggedRow>
  {
    Scan(PartitionRows(yearly, p), None)
  }

  /** Every partition in turn, each scanned in year order. */
  function ScanPartitions(yearly: seq<YearlyRow>): seq<LaggedRow>
  {
    FlatMap(Keys(yearly, PartitionOf), p => LagPartition(yearly, p))
  }

  /** The `lagged` CTE. Over one-row-per-key yearly rows, it pairs each row
      with its predecessor's average, once each, and holds nothing else. */
  function Lagged(yearly: seq<YearlyRow>): (ls: seq<LaggedRow>)
    ensures DistinctBy(yearly, YearlyKey) ==>
      && DistinctBy(ls, LaggedKey)
      && forall l :: l in ls <==> l.row in yearly && l.prev == PrevAvg(yearly, l.row)
  {
    var ls := ScanPartitions(yearly);
    assert DistinctBy(yearly, YearlyKey) ==>
      && DistinctBy(ls, LaggedKey)
      && forall l :: l in ls <==> l.row in yearly && l.prev == PrevAvg(yearly, l.row)
    by {
      if DistinctBy(yearly, YearlyKey) {
        LaggedRows(yearly);
        LaggedDistinct(yearly);
      }
    }
    ls
  }

  /** An ordered partition holds exactly the partition's rows, and with
      distinct keys its years strictly increase. */
  lemma PartitionShape(yearly: seq<YearlyRow>, p: (string, Option<string>))
    requires DistinctBy(yearly, YearlyKey)
    ensures forall y :: y in PartitionRows(yearly, p) <==> y in yearly && PartitionOf(y) == p
    ensures DistinctBy(PartitionRows(yearly, p), YearlyKey)
    ensures forall i, j :: 0 <= i < j < |PartitionRows(yearly, p)| ==>
      PartitionRows(yearly, p)[i].year < PartitionRows(yearly, p)[j].year
  {
    var sel := Select(yearly, PartitionOf, p);
    var s := PartitionRows(yearly, p);
    ByYearOrder();
    assert multiset(s) == multiset(sel);
    forall y ensures y in s <==> y in sel {
      assert y in s <==> y in multiset(s);
      assert y in sel <==> y in multiset(sel);
    }
    SelectDistinct(yearly, PartitionOf, p, YearlyKey);
    DistinctByPermutation(sel, s, YearlyKey);
    forall i, j | 0 <= i < j < |s| ensures s[i].year < s[j].year {
      assert s[i] in s && s[j] in s;
      assert YearlyKey(s[i]) != YearlyKey(s[j]);
      assert ByYear(s[i], s[j]);
    }
  }

  /** In an ordered partition the row before position `i` is exactly the
      predecessor the reference definition names. */
  lemma LagAt(yearly: seq<YearlyRow>, p: (string, Option<string>), i: int)
    requires DistinctBy(yearly, YearlyKey)
    requires 0 <= i < |PartitionRows(yearly, p)|
    ensures PrevAvg(yearly, PartitionRows(yearly, p)[i]) ==
      (if i == 0 then None else PartitionRows(yearly, p)[i - 1].avg)
  {
    PartitionShape(yearly, p);
    PrevInYearOrder(yearly, PartitionRows(yearly, p), p, i);
  }

  /** In one partition listed in strictly increasing year order, a row's
      predecessor is the row just before it, and the first row has none. */
  lemma PrevInYearOrder(yearly: seq<YearlyRow>, s: seq<YearlyRow>, p: (string, Option<string>), i: int)
    requires DistinctBy(yearly, YearlyKey)
    requires forall y :: y in s <==> y in yearly && PartitionOf(y) == p
    requires forall a, b :: 0 <= a < b < |s| ==> s[a].year < s[b].year
    requires 0 <= i < |s|
    ensures PrevAvg(yearly, s[i]) == (if i == 0 then None else s[i - 1].avg)
  {
    var y := s[i];
    assert y in s;
    if i == 0 {
      forall q ensures !IsPredecessor(yearly, q, y) {
        if q in yearly && PartitionOf(q) == PartitionOf(y) {
          assert q in s;
          var k :| 0 <= k < |s| && s[k] == q;
          assert k == 0 || s[0].year < s[k].year;
        }
      }
    } else {
      var before := s[i - 1];
      assert before in s;
      forall q | q in yearly && PartitionOf(q) == PartitionOf(y) && q.year < y.year
        ensures q.year <= before.year
      {
        assert q in s;
        var k :| 0 <= k < |s| && s[k] == q;
        assert k < i;
        assert k == i - 1 || s[k].year < before.year;
      }
      assert IsPredecessor(yearly, before, y);
      forall c | IsPredecessor(yearly, c, y) ensures c == before {
        PredecessorUnique(yearly, c, before, y);
      }
    }
  }

  /** The partition scans give every yearly row the average of its
      predecessor, and nothing else. */
  lemma LaggedRows(yearly: seq<YearlyRow>)
    requires DistinctBy(yearly, YearlyKey)
    ensures forall l :: l in ScanPartitions(yearly) <==> l.row in yearly && l.prev == PrevAvg(yearly, l.row)
  {
    forall l | l in ScanPartitions(yearly) ensures l.row in yearly && l.prev == PrevAvg(yearly, l.row) {
      ScannedIsLagged(yearly, l);
    }
    forall l: LaggedRow | l.row in yearly && l.prev == PrevAvg(yearly, l.row) ensures l in ScanPartitions(yearly) {
      LaggedIsScanned(yearly, l);
    }
  }

  /** A row of the partition scans is a yearly row with its predecessor's average. */
  lemma ScannedIsLagged(yearly: seq<YearlyRow>, l: LaggedRow)
    requires DistinctBy(yearly, YearlyKey)
    requires l in ScanPartitions(yearly)
    ensures l.row in yearly && l.prev == PrevAvg(yearly, l.row)
  {
    var p :| p in Keys(yearly, PartitionOf) && l in LagPartition(yearly, p);
    var lp := LagPartition(yearly, p);
    var i :| 0 <= i < |lp| && lp[i] == l;
    ScanEntry(yearly, p, i);
  }

  /** Entry `i` of a partition's scan is a yearly row with its predecessor's average. */
  lemma ScanEntry(yearly: seq<YearlyRow>, p: (string, Option<string>), i: int)
    requires DistinctBy(yearly, YearlyKey)
    requires 0 <= i < |LagPartition(yearly, p)|
    ensures LagPartition(yearly, p)[i].row in yearly
    ensures LagPartition(yearly, p)[i].prev == PrevAvg(yearly, LagPartition(yearly, p)[i].row)
  {
    var s := PartitionRows(yearly, p);
    PartitionShape(yearly, p);
    assert s[i] in s;
    LagAt(yearly, p, i);
  }

  /** Every yearly row, paired with its predecessor's average, is in the partition scans. */
  lemma LaggedIsScanned(yearly: seq<YearlyRow>, l: LaggedRow)
    requires DistinctBy(yearly, YearlyKey)
    requires l.row in yearly && l.prev == PrevAvg(yearly, l.row)
    ensures l in ScanPartitions(yearly)
  {
    var p := PartitionOf(l.row);
    assert p in Keys(yearly, PartitionOf);
    var s := PartitionRows(yearly, p);
    PartitionShape(yearly, p);
    assert l.row in s;
    var i :| 0 <= i < |s| && s[i] == l.row;
    LagAt(yearly, p, i);
    assert LagPartition(yearly, p)[i] == l;
    assert l in LagPartition(yearly, p);
  }

  /** Every yearly row appears once in the partition scans. */
  lemma LaggedDistinct(yearly: seq<YearlyRow>)
    requires DistinctBy(yearly, YearlyKey)
    ensures DistinctBy(ScanPartitions(yearly), LaggedKey)
  {
    var ps := Keys(yearly, PartitionOf);
    var f := p => LagPartition(yearly, p);
    forall i | 0 <= i < |ps| ensures DistinctBy(f(ps[i]), LaggedKey) {
      var s := PartitionRows(yearly, ps[i]);
      PartitionShape(yearly, ps[i]);
      forall a, b | 0 <= a < b < |s| ensures LaggedKey(f(ps[i])[a]) != LaggedKey(f(ps[i])[b]) {
        assert YearlyKey(s[a]) != YearlyKey(s[b]);
      }
    }
    forall i, j | 0 <= i < j < |ps|
      ensures forall y, z :: y in f(ps[i]) && z in f(ps[j]) ==> LaggedKey(y) != LaggedKey(z)
    {
      forall y, z | y in f(ps[i]) && z in f(ps[j]) ensures LaggedKey(y) != LaggedKey(z) {
        PartitionInto(yearly, ps[i], y);
        PartitionInto(yearly, ps[j], z);
      }
    }
    FlatMapDistinct(ps, f, LaggedKey);
  }

  /** Every row of a partition's scan belongs to that partition. */
  lemma PartitionInto(yearly: seq<YearlyRow>, p: (string, Option<string>), l: LaggedRow)
    requires l in LagPartition(yearly, p)
    ensures PartitionOf(l.row) == p
  {
    var s := PartitionRows(yearly, p);
    var i :| 0 <= i < |s| && LagPartition(yearly, p)[i] == l;
    ByYearOrder();
    assert s[i] in multiset(Select(yearly, PartitionOf, p));
  }

  /** The final SELECT list over one lagged row. */
  function TrendOf(l: LaggedRow): TrendRow
  {
    TrendRow(l.row.generic, l.row.brand, l.row.year, l.row.avg, l.prev, Div(Sub(l.row.avg, l.prev), l.prev))
  }

  /** `WHERE prev_avg_cost_per_claim IS NOT NULL` followed by the SELECT list. */
  function Finish(ls: seq<LaggedRow>): (ts: seq<TrendRow>)
    ensures forall t :: t in ts <==> exists l :: l in ls && l.prev.Some? && t == TrendOf(l)
    ensures DistinctBy(ls, LaggedKey) ==> DistinctBy(ts, TrendKey)
    decreases |ls|
  {
    if ls == [] then []
    else
      var rest := Finish(ls[1..]);
      assert forall l :: l in ls <==> l == ls[0] || l in ls[1..];
      var ts := if ls[0].prev.Some? then [TrendOf(ls[0])] + rest else rest;
      assert DistinctBy(ls, LaggedKey) ==> DistinctBy(ts, TrendKey) by {
        if DistinctBy(ls, LaggedKey) {
          DistinctByTail(ls, LaggedKey);
          if ls[0].prev.Some? {
            DistinctByAppend([TrendOf(ls[0])], rest, TrendKey);
          }
        }
      }
      ts
  }

  /** `ORDER BY yoy_change DESC`, NULL changes last. */
  predicate TrendBefore(x: TrendRow, y: TrendRow)
  {
    DescNullsLast(x.yoyChange, y.yoyChange)
  }

  lemma TrendOrder()
    ensures TotalPreorder(TrendBefore)
  {
  }

  /** In the report, rows with a change value come first, largest change
      first, and rows whose change is NULL come last. */
  lemma ChangeNullsLast(claims: seq<Claim>, drugs: seq<Drug>)
    ensures var rows := Report(claims, drugs);
            forall i, j :: 0 <= i < j < |rows| ==>
              (rows[i].yoyChange.None? ==> rows[j].yoyChange.None?) &&
              (rows[j].yoyChange.Some? ==>
                 rows[i].yoyChange.Some? && rows[i].yoyChange.value >= rows[j].yoyChange.value)
  {
    var rows := Report(claims, drugs);
    forall i, j | 0 <= i < j < |rows|
      ensures (rows[i].yoyChange.None? ==> rows[j].yoyChange.None?) &&
              (rows[j].yoyChange.Some? ==>
                 rows[i].yoyChange.Some? && rows[i].yoyChange.value >= rows[j].yoyChange.value)
    {
      assert TrendBefore(rows[i], rows[j]);
    }
  }

  /** What one trend row must be, against the `yearly` rows: a yearly row
      that has a predecessor with a non-NULL average, that average as the
      previous value, and the change relative to it. */
  ghost predicate IsTrendRow(yearly: seq<YearlyRow>, t: TrendRow)
  {
    var y := YearlyRow(t.generic, t.brand, t.year, t.avgCostPerClaim);
    && y in yearly
    && t.prevAvgCostPerClaim == PrevAvg(yearly, y)
    && t.prevAvgCostPerClaim.Some?
    && t.yoyChange == Div(Sub(t.avgCostPerClaim, t.prevAvgCostPerClaim), t.prevAvgCostPerClaim)
  }

  /** The trend report over the claims and drugs tables. */
  function Report(claims: seq<Claim>, drugs: seq<Drug>): (rows: seq<TrendRow>)
    ensures Sorted(rows, TrendBefore)
    ensures DistinctBy(rows, TrendKey)
    ensures forall t :: t in rows <==> IsTrendRow(Yearly(JoinDrugs(claims, drugs)), t)
  {
    var yearly := Yearly(JoinDrugs(claims, drugs));
    var finished := Finish(Lagged(yearly));
    TrendOrder();
    var rows := Sort(finished, TrendBefore);
    DistinctByPermutation(finished, rows, TrendKey);
    forall t ensures t in rows <==> t in finished {
      assert t in rows <==> t in multiset(rows);
      assert t in finished <==> t in multiset(finished);
    }
    forall t | t in finished ensures IsTrendRow(yearly, t) {
      var l :| l in Lagged(yearly) && l.prev.Some? && t == TrendOf(l);
    }
    forall t | IsTrendRow(yearly, t) ensures t in finished {
      var l := LaggedRow(YearlyRow(t.generic, t.brand, t.year, t.avgCostPerClaim), t.prevAvgCostPerClaim);
      assert l in Lagged(yearly);
      assert t == TrendOf(l);
    }
    rows
  }

  /** The change column: NULL exactly when the average is NULL or the
      previous average is zero, otherwise the relative change. */
  ghost predicate ChangeColumnHolds(t: TrendRow)
  {
    && t.prevAvgCostPerClaim.Some?
    && (t.yoyChange.Some? <==> t.avgCostPerClaim.Some? && t.prevAvgCostPerClaim.value != 0.0)
    && (t.yoyChange.Some? ==>
          t.yoyChange.value * t.prevAvgCostPerClaim.value == t.avgCostPerClaim.value - t.prevAvgCostPerClaim.value)
  }

  lemma RowChange(t: TrendRow)
    requires t.prevAvgCostPerClaim.Some?
    requires t.yoyChange == Div(Sub(t.avgCostPerClaim, t.prevAvgCostPerClaim), t.prevAvgCostPerClaim)
    ensures ChangeColumnHolds(t)
  {
  }

  lemma ChangeColumn(claims: seq<Claim>, drugs: seq<Drug>)
    ensures forall t :: t in Report(claims, drugs) ==> ChangeColumnHolds(t)
  {
    forall t | t in Report(claims, drugs) ensures ChangeColumnHolds(t) {
      assert IsTrendRow(Yearly(JoinDrugs(claims, drugs)), t);
      RowChange(t);
    }
  }

  /** Reordering the claims yields the same rows. */
  lemma ReportOrderIndependent(c1: seq<Claim>, c2: seq<Claim>, drugs: seq<Drug>)
    requires multiset(c1) == multiset(c2)
    ensures multiset(Report(c1, drugs)) == multiset(Report(c2, drugs))
  {
    var f1 := JoinDrugs(c1, drugs);
    var f2 := JoinDrugs(c2, drugs);
    JoinDrugsPermutation(c1, c2, drugs);
    forall y ensures y in Yearly(f1) <==> y in Yearly(f2) {
      OccursPermutation(f1, f2, YearKey, YearlyKey(y));
      TallyPermutation(f1, f2, YearKey, FactTotals, YearlyKey(y));
    }
    SameRowsSamePrev(Yearly(f1), Yearly(f2));
    DistinctSameElements(Report(c1, drugs), Report(c2, drugs), TrendKey);
  }

  /** The reference predecessor depends only on which rows are present. */
  lemma SameRowsSamePrev(a: seq<YearlyRow>, b: seq<YearlyRow>)
    requires DistinctBy(a, YearlyKey) && DistinctBy(b, YearlyKey)
    requires forall y :: y in a <==> y in b
    ensures forall y :: PrevAvg(a, y) == PrevAvg(b, y)
  {
    forall y ensures PrevAvg(a, y) == PrevAvg(b, y) {
      assert forall p :: IsPredecessor(a, p, y) <==> IsPredecessor(b, p, y);
      if exists p :: IsPredecessor(a, p, y) {
        var pa :| IsPredecessor(a, pa, y);
        forall p | IsPredecessor(a, p, y) ensures p == pa {
          PredecessorUnique(a, p, pa, y);
        }
        forall p | IsPredecessor(b, p, y) ensures p == pa {
          PredecessorUnique(b, p, pa, y);
        }
      }
    }
  }
}
