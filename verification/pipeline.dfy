/** The whole evaluation, from the experts' linguistic judgments to the
    ranking and the compromise verdict, with the properties that connect the
    stages. */
module Pipeline {
  import opened Fuzzy
  import opened Scales
  import opened Judgments
  import opened Aggregation
  import opened Reference
  import opened Normalization
  import opened Utility
  import opened Compromise
  import opened Ranking
  import opened Acceptance

  /** Every intermediate table the page derives. */
  datatype Results = Results(
    aggCriteria: seq<Tri>,
    aggAlts: seq<seq<Tri>>,
    ideal: seq<Tri>,
    antiIdeal: seq<Tri>,
    normalized: seq<seq<Tri>>,
    weighted: seq<seq<Tri>>,
    sFuzzy: seq<Tri>,
    sDefuzz: seq<real>,
    rDefuzz: seq<real>,
    qDefuzz: seq<real>,
    ranking: seq<RankingEntry>,
    verdict: Verdict)

  /** The chain of derived tables for na alternatives, nc criteria, ne experts
      and strategy weight v. */
  function Evaluate(w: WeightMatrix, ev: RatingTensor, types: CriteriaTypes, na: nat, nc: nat, ne: nat, v: real)
    : (r: Results)
    requires ne >= 1
    ensures |r.aggCriteria| == nc && IsMatrix(r.aggAlts, na, nc)
    ensures |r.ideal| == nc && |r.antiIdeal| == nc
    ensures IsMatrix(r.normalized, na, nc) && IsMatrix(r.weighted, na, nc)
    ensures |r.sFuzzy| == na && |r.sDefuzz| == na && |r.rDefuzz| == na && |r.qDefuzz| == na
    ensures |r.ranking| == na
  {
    var aggW := AggregatedCriteria(w, nc, ne);
    var aggA := AggregatedAlts(ev, na, nc, ne);
    var ideal := IdealF(aggA, na, nc);
    var anti := AntiIdealF(aggA, na, nc);
    var norm := NormalizedFuzzy(aggA, ideal, anti, types, na, nc);
    var wn := WeightedFuzzy(norm, aggW, na, nc);
    var S := SDefuzz(wn, na, nc);
    var R := RDefuzz(wn, na, nc);
    var Q := QDefuzz(S, R, v);
    var ranking := RankingOf(S, R, Q);
    Results(aggW, aggA, ideal, anti, norm, wn, SFuzzy(wn, na, nc), S, R, Q, ranking, CompromiseCheck(ranking, na))
  }

  /** The page's computation, stage by stage. */
  method RunVikor(w: WeightMatrix, ev: RatingTensor, types: CriteriaTypes, na: nat, nc: nat, ne: nat, v: real)
    returns (res: Results)
    requires ne >= 1
    ensures res == Evaluate(w, ev, types, na, nc, ne, v)
  {
    var aggW := ComputeAggregatedCriteria(w, nc, ne);
    var aggA := ComputeAggregatedAlts(ev, na, nc, ne);
    var ideal := ComputeIdeal(aggA, na, nc);
    var anti := ComputeAntiIdeal(aggA, na, nc);
    var norm := ComputeNormalized(aggA, ideal, anti, types, na, nc);
    var wn := ComputeWeighted(norm, aggW, na, nc);
    var sFuzzy, sDefuzz, rDefuzz := ComputeUtility(wn, na, nc);
    var qDefuzz := QDefuzz(sDefuzz, rDefuzz, v);
    var ranking := ComputeRanking(sDefuzz, rDefuzz, qDefuzz);
    var verdict := CompromiseCheck(ranking, na);
    res := Results(aggW, aggA, ideal, anti, norm, wn, sFuzzy, sDefuzz, rDefuzz, qDefuzz, ranking, verdict);
  }

  // ---------------------------------------------------------------------------
  // Properties of the whole chain

  /** Whatever the judgments: every regret is non-negative and at most the
      group utility, and for v in [0,1] every Q lies in [0,1]. */
  lemma MeasuresBounded(w: WeightMatrix, ev: RatingTensor, types: CriteriaTypes, na: nat, nc: nat, ne: nat, v: real, a: nat)
    requires ne >= 1 && a < na
    ensures var r := Evaluate(w, ev, types, na, nc, ne, v);
      0.0 <= r.rDefuzz[a] <= r.sDefuzz[a]
    ensures var r := Evaluate(w, ev, types, na, nc, ne, v);
      0.0 <= v <= 1.0 ==> 0.0 <= r.qDefuzz[a] <= 1.0
  {
    var r := Evaluate(w, ev, types, na, nc, ne, v);
    AggregatedCriteriaInUnit(w, nc, ne);
    NormalizedNonNeg(r.aggAlts, r.ideal, r.antiIdeal, types, na, nc);
    WeightedNonNeg(r.normalized, r.aggCriteria, na, nc);
    RegretBelowUtility(r.weighted, na, nc, a);
    QInUnit(r.sDefuzz, r.rDefuzz, v, a);
  }

  /** Identical judgments for every alternative give identical aggregated
      ratings in each column. */
  lemma ConstantColumns(ev: RatingTensor, na: nat, nc: nat, ne: nat)
    requires ne >= 1 && na >= 1
    requires forall e: nat, a: nat, j: nat :: e < ne && a < na && j < nc ==> PerformanceAt(ev, e, a, j) == PerformanceAt(ev, e, 0, j)
    ensures forall a, j :: 0 <= a < na && 0 <= j < nc ==> AggregatedAlts(ev, na, nc, ne)[a][j] == AggregatedAlts(ev, na, nc, ne)[0][j]
  {
    forall a, j | 0 <= a < na && 0 <= j < nc
      ensures AggregatedAlts(ev, na, nc, ne)[a][j] == AggregatedAlts(ev, na, nc, ne)[0][j]
    {
      assert RatingTris(ev, a, j, ne) == RatingTris(ev, 0, j, ne);
    }
  }

  /** When every column of the aggregated ratings is constant, every
      normalised and weighted value is Zero. */
  lemma ConstantColumnsWeighZero(agg: seq<seq<Tri>>, weights: seq<Tri>, types: CriteriaTypes, na: nat, nc: nat)
    requires IsMatrix(agg, na, nc) && |weights| == nc && na >= 1
    requires forall a, j :: 0 <= a < na && 0 <= j < nc ==> agg[a][j] == agg[0][j]
    ensures var norm := NormalizedFuzzy(agg, IdealF(agg, na, nc), AntiIdealF(agg, na, nc), types, na, nc);
      forall a, j :: 0 <= a < na && 0 <= j < nc ==> WeightedFuzzy(norm, weights, na, nc)[a][j] == Zero
  {
    var ideal, anti := IdealF(agg, na, nc), AntiIdealF(agg, na, nc);
    var norm := NormalizedFuzzy(agg, ideal, anti, types, na, nc);
    forall a, j | 0 <= a < na && 0 <= j < nc
      ensures WeightedFuzzy(norm, weights, na, nc)[a][j] == Zero
    {
      ExtremaOfConstant(agg, j, na, agg[0][j]);
      assert ideal[j] == agg[0][j] && anti[j] == agg[0][j];
      IdenticalColumnIsZero(agg[0][j], IsBenefit(types, j));
      assert norm[a][j] == Zero;
    }
  }

  /** An all-Zero weighted matrix has S = R = 0 for every alternative. */
  lemma ZeroMatrixUtility(wn: seq<seq<Tri>>, na: nat, nc: nat)
    requires IsMatrix(wn, na, nc)
    requires forall a, j :: 0 <= a < na && 0 <= j < nc ==> wn[a][j] == Zero
    ensures forall a :: 0 <= a < na ==> SDefuzz(wn, na, nc)[a] == 0.0 && RDefuzz(wn, na, nc)[a] == 0.0
  {
    forall a | 0 <= a < na
      ensures SDefuzz(wn, na, nc)[a] == 0.0 && RDefuzz(wn, na, nc)[a] == 0.0
    {
      SumOfZeros(wn[a]);
      UtilityMeaning(wn, na, nc, a);
    }
  }

  /** Equal S values for all alternatives give Q = 0 for all of them. */
  lemma EqualUtilityQZero(S: seq<real>, R: seq<real>, v: real)
    requires |S| == |R| && |S| > 0
    requires forall a :: 0 <= a < |S| ==> S[a] == S[0]
    ensures forall a :: 0 <= a < |S| ==> QDefuzz(S, R, v)[a] == 0.0
  {
    LowestOfBounds(S, |S|);
    HighestOfBounds(S, |S|);
    forall a | 0 <= a < |S|
      ensures QDefuzz(S, R, v)[a] == 0.0
    {
      QInUnit(S, R, v, a);
    }
  }

  /** When every expert rates every alternative the same way on each criterion,
      no alternative stands out: S, R and Q are 0 for all of them. */
  lemma IdenticalAlternativesTie(w: WeightMatrix, ev: RatingTensor, types: CriteriaTypes, na: nat, nc: nat, ne: nat, v: real)
    requires ne >= 1 && na >= 1
    requires forall e: nat, a: nat, j: nat :: e < ne && a < na && j < nc ==> PerformanceAt(ev, e, a, j) == PerformanceAt(ev, e, 0, j)
    ensures var r := Evaluate(w, ev, types, na, nc, ne, v);
      forall a :: 0 <= a < na ==> r.sDefuzz[a] == 0.0 && r.rDefuzz[a] == 0.0 && r.qDefuzz[a] == 0.0
  {
    var r := Evaluate(w, ev, types, na, nc, ne, v);
    ConstantColumns(ev, na, nc, ne);
    ConstantColumnsWeighZero(r.aggAlts, r.aggCriteria, types, na, nc);
    assert r.weighted == WeightedFuzzy(NormalizedFuzzy(r.aggAlts, IdealF(r.aggAlts, na, nc), AntiIdealF(r.aggAlts, na, nc), types, na, nc), r.aggCriteria, na, nc);
    ZeroMatrixUtility(r.weighted, na, nc);
    assert r.sDefuzz == SDefuzz(r.weighted, na, nc) && r.rDefuzz == RDefuzz(r.weighted, na, nc);
    EqualUtilityQZero(r.sDefuzz, r.rDefuzz, v);
  }

  /** The verdict on any list already in ascending Q: the first entry is in
      the compromise set, the advantage is the gap between the first two,
      condition 1 holds exactly when it reaches DQ, and
      every member of the set is an entry within DQ of the first. */
  lemma VerdictOnSorted(rk: seq<RankingEntry>)
    requires |rk| >= 2
    requires forall p, q :: 0 <= p < q < |rk| ==> rk[p].q <= rk[q].q
    ensures var c := CompromiseCheck(rk, |rk|);
      && Ok(c)
      && rk[0] in c.best
      && c.advantage == rk[1].q - rk[0].q
      && (c.cond1 <==> c.advantage >= c.dq)
      && (c.cond2 <==> rk[0].sRank == 1 || rk[0].rRank == 1)
      && (forall e :: e in c.best ==> e in rk && e.q <= rk[0].q + c.dq)
  {
    SortByQOfSorted(rk);
    var n := |rk|;
    var c := CompromiseCheck(rk, n);
    assert c == Decide(rk, n);
    DecideSpec(rk, n);
  }

  /** The verdict on the page's ranking: with two or more alternatives the
      check is ok, the alternative ranked first by Q is in the compromise set,
      the advantage is the Q gap between the first two of the ranking,
      condition 1 holds exactly when it reaches DQ, and
      every member of the set is within DQ of the best Q. With fewer
      than two alternatives the check is not ok and the set is empty. */
  lemma VerdictOnRanking(S: seq<real>, R: seq<real>, Q: seq<real>)
    requires |S| == |Q| && |R| == |Q|
    ensures |Q| < 2 ==>
      var c := CompromiseCheck(RankingOf(S, R, Q), |Q|);
      !Ok(c) && Best(c) == []
    ensures |Q| >= 2 ==>
      var rk := RankingOf(S, R, Q);
      var c := CompromiseCheck(rk, |Q|);
      && Ok(c)
      && rk[0].qRank == 1 && rk[0] in c.best
      && c.advantage == rk[1].q - rk[0].q
      && (c.cond1 <==> c.advantage >= c.dq)
      && (c.cond2 <==> rk[0].sRank == 1 || rk[0].rRank == 1)
      && (forall e :: e in c.best ==> e in rk && e.q <= rk[0].q + c.dq)
  {
    var rk := RankingOf(S, R, Q);
    if |Q| >= 2 {
      RankingProperties(S, R, Q);
      VerdictOnSorted(rk);
    }
  }
}
