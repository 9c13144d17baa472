/** The three source tables and the inner joins the reports run over them:
    `Prescriptions p JOIN Drugs d ON p.drug_id = d.drug_id` and
    `JOIN Providers pr ON pr.provider_id = p.provider_id`. An inner join
    drops a claim whose reference matches no row and repeats it once per
    matching row; no error is raised. */
module Schema {
  import opened Nullable
  import opened Seqs
  import opened Grouping

  /** A row of `Prescriptions`. */
  datatype Claim = Claim(drugId: int, providerId: int, year: int, totalCost: real, claimsCount: int)

  /** A row of `Drugs`; `brandName` is NULL for a generic-only product. */
  datatype Drug = Drug(drugId: int, brandName: Option<string>, genericName: string)

  /** A row of `Providers`. */
  datatype Provider = Provider(providerId: int, state: string)

  /** A claim joined to one of its drugs. */
  datatype Fact = Fact(providerId: int, generic: string, brand: Option<string>, year: int, cost: real, claims: int)

  /** A fact joined further to one of its providers. */
  datatype Located = Located(state: string, fact: Fact)

  function Resolve(c: Claim, d: Drug): Fact
  {
    Fact(c.providerId, d.genericName, d.brandName, c.year, c.totalCost, c.claimsCount)
  }

  function Place(f: Fact, p: Provider): Located
  {
    Located(p.state, f)
  }

  /** The cost and claim count a fact contributes to `SUM(...)`. */
  function FactTotals(f: Fact): Totals
  {
    Totals(f.cost, f.claims)
  }

  function LocatedTotals(l: Located): Totals
  {
    FactTotals(l.fact)
  }

  function DrugIdOf(d: Drug): int
  {
    d.drugId
  }

  /** The joined rows of one claim: one per drug row with its id. */
  function DrugRowsOf(c: Claim, drugs: seq<Drug>): (r: seq<Fact>)
    ensures forall f :: f in r <==> exists d :: d in drugs && d.drugId == c.drugId && f == Resolve(c, d)
    ensures |r| == |Select(drugs, DrugIdOf, c.drugId)|
    decreases |drugs|
  {
    if drugs == [] then []
    else
      var rest := DrugRowsOf(c, drugs[1..]);
      assert forall d :: d in drugs <==> d == drugs[0] || d in drugs[1..];
      if drugs[0].drugId == c.drugId then [Resolve(c, drugs[0])] + rest else rest
  }

  function ProviderIdOf(p: Provider): int
  {
    p.providerId
  }

  /** The joined rows of one fact: one per provider row with its id. */
  function ProviderRowsOf(f: Fact, providers: seq<Provider>): (r: seq<Located>)
    ensures forall l :: l in r <==> exists p :: p in providers && p.providerId == f.providerId && l == Place(f, p)
    ensures |r| == |Select(providers, ProviderIdOf, f.providerId)|
    decreases |providers|
  {
    if providers == [] then []
    else
      var rest := ProviderRowsOf(f, providers[1..]);
      assert forall p :: p in providers <==> p == providers[0] || p in providers[1..];
      if providers[0].providerId == f.providerId then [Place(f, providers[0])] + rest else rest
  }

  /** `Prescriptions p JOIN Drugs d ON p.drug_id = d.drug_id`. */
  function JoinDrugs(claims: seq<Claim>, drugs: seq<Drug>): (facts: seq<Fact>)
    ensures forall f :: f in facts <==>
      exists c, d :: c in claims && d in drugs && c.drugId == d.drugId && f == Resolve(c, d)
  {
    FlatMap(claims, c => DrugRowsOf(c, drugs))
  }

  /** `... JOIN Providers pr ON pr.provider_id = p.provider_id`. */
  function JoinProviders(facts: seq<Fact>, providers: seq<Provider>): (located: seq<Located>)
    ensures forall l :: l in located <==>
      exists f, p :: f in facts && p in providers && p.providerId == f.providerId && l == Place(f, p)
  {
    FlatMap(facts, f => ProviderRowsOf(f, providers))
  }

  /** Both joins of the regional report, applied in the order of its FROM clause. */
  function JoinAll(claims: seq<Claim>, drugs: seq<Drug>, providers: seq<Provider>): seq<Located>
  {
    JoinProviders(JoinDrugs(claims, drugs), providers)
  }

  lemma JoinDrugsAppend(a: seq<Claim>, b: seq<Claim>, drugs: seq<Drug>)
    ensures JoinDrugs(a + b, drugs) == JoinDrugs(a, drugs) + JoinDrugs(b, drugs)
  {
    FlatMapAppend(a, b, c => DrugRowsOf(c, drugs));
  }

  lemma JoinAllAppend(a: seq<Claim>, b: seq<Claim>, drugs: seq<Drug>, providers: seq<Provider>)
    ensures JoinAll(a + b, drugs, providers) == JoinAll(a, drugs, providers) + JoinAll(b, drugs, providers)
  {
    JoinDrugsAppend(a, b, drugs);
    FlatMapAppend(JoinDrugs(a, drugs), JoinDrugs(b, drugs), f => ProviderRowsOf(f, providers));
  }

  /** The join does not depend on the order of the claims. */
  lemma JoinDrugsPermutation(a: seq<Claim>, b: seq<Claim>, drugs: seq<Drug>)
    requires multiset(a) == multiset(b)
    ensures multiset(JoinDrugs(a, drugs)) == multiset(JoinDrugs(b, drugs))
  {
    FlatMapPermutation(a, b, c => DrugRowsOf(c, drugs));
  }

  lemma JoinAllPermutation(a: seq<Claim>, b: seq<Claim>, drugs: seq<Drug>, providers: seq<Provider>)
    requires multiset(a) == multiset(b)
    ensures multiset(JoinAll(a, drugs, providers)) == multiset(JoinAll(b, drugs, providers))
  {
    JoinDrugsPermutation(a, b, drugs);
    FlatMapPermutation(JoinDrugs(a, drugs), JoinDrugs(b, drugs), f => ProviderRowsOf(f, providers));
  }

  /** A claim whose drug id matches no drug row is silently dropped. */
  lemma DanglingClaimDropped(claims: seq<Claim>, c: Claim, drugs: seq<Drug>)
    requires forall d :: d in drugs ==> d.drugId != c.drugId
    ensures JoinDrugs(claims + [c], drugs) == JoinDrugs(claims, drugs)
  {
    JoinDrugsAppend(claims, [c], drugs);
    Heads(JoinDrugs([c], drugs));
  }

  /** Some drug row carries the claim's drug id. */
  ghost predicate HasDrug(c: Claim, drugs: seq<Drug>)
  {
    exists d :: d in drugs && d.drugId == c.drugId
  }

  /** `f` is claim `c` resolved against a drug row with its drug id. */
  ghost predicate ResolvedFrom(f: Fact, c: Claim, drugs: seq<Drug>)
  {
    exists d :: d in drugs && d.drugId == c.drugId && f == Resolve(c, d)
  }

  /** With unique drug ids and no dangling claim, the join yields exactly one
      fact per claim, in claim order: row `i` is claim `i` resolved against
      its drug. */
  lemma {:induction false} JoinDrugsOnePerClaim(claims: seq<Claim>, drugs: seq<Drug>)
    requires DistinctBy(drugs, DrugIdOf)
    requires forall c :: c in claims ==> HasDrug(c, drugs)
    ensures |JoinDrugs(claims, drugs)| == |claims|
    ensures forall i :: 0 <= i < |claims| ==> ResolvedFrom(JoinDrugs(claims, drugs)[i], claims[i], drugs)
    decreases |claims|
  {
    if claims != [] {
      var c := claims[0];
      assert c in claims;
      ResolvedOnce(c, drugs);
      assert forall c' :: c' in claims[1..] ==> c' in claims;
      JoinDrugsOnePerClaim(claims[1..], drugs);
      JoinDrugsCons(claims, drugs);
      ResolvedCons(claims, drugs, DrugRowsOf(c, drugs), JoinDrugs(claims[1..], drugs));
    }
  }

  /** Facts resolved one per claim for the head and for the tail line up with
      the whole claim list. */
  lemma ResolvedCons(claims: seq<Claim>, drugs: seq<Drug>, head: seq<Fact>, rest: seq<Fact>)
    requires claims != []
    requires |head| == 1 && ResolvedFrom(head[0], claims[0], drugs)
    requires |rest| == |claims| - 1
    requires forall i :: 0 <= i < |rest| ==> ResolvedFrom(rest[i], claims[1..][i], drugs)
    ensures forall i :: 0 <= i < |claims| ==> ResolvedFrom((head + rest)[i], claims[i], drugs)
  {
    forall i | 0 <= i < |claims|
      ensures ResolvedFrom((head + rest)[i], claims[i], drugs)
    {
      if i > 0 {
        assert claims[i] == claims[1..][i - 1];
        assert (head + rest)[i] == rest[i - 1];
      }
    }
  }

  /** The join of a non-empty claim list starts with the head claim's facts. */
  lemma JoinDrugsCons(claims: seq<Claim>, drugs: seq<Drug>)
    requires claims != []
    ensures JoinDrugs(claims, drugs) == DrugRowsOf(claims[0], drugs) + JoinDrugs(claims[1..], drugs)
  {
  }

  /** A claim whose drug id is unique and present resolves to exactly one fact. */
  lemma ResolvedOnce(c: Claim, drugs: seq<Drug>)
    requires DistinctBy(drugs, DrugIdOf)
    requires HasDrug(c, drugs)
    ensures |DrugRowsOf(c, drugs)| == 1
    ensures ResolvedFrom(DrugRowsOf(c, drugs)[0], c, drugs)
  {
    var d :| d in drugs && d.drugId == c.drugId;
    SelectSingle(drugs, c.drugId, d);
    var head := DrugRowsOf(c, drugs);
    assert head[0] in head;
  }

  /** A drug id that is unique and present selects exactly one drug row. */
  lemma SelectSingle(drugs: seq<Drug>, id: int, d: Drug)
    requires DistinctBy(drugs, DrugIdOf)
    requires d in drugs && d.drugId == id
    ensures |Select(drugs, DrugIdOf, id)| == 1
  {
    var s := Select(drugs, DrugIdOf, id);
    SelectDistinct(drugs, DrugIdOf, id, DrugIdOf);
    assert d in s;
    Heads(s);
  }
}
