/** Expert aggregation: every criterion weight and every (alternative,
    criterion) rating is the arithmetic mean of the experts' TFNs. */
module Aggregation {
  import opened Fuzzy
  import opened Scales
  import opened Judgments

  /** Arithmetic mean of a non-empty sequence of TFNs: n copies of it add up to the sum. */
  function Mean(s: seq<Tri>): (r: Tri)
    requires |s| > 0
    ensures MulTriScalar(r, |s| as real) == SumTris(s)
  {
    DivTriScalar(SumTris(s), |s| as real)
  }

  /** The experts' weight TFNs for criterion j, missing labels read as "M". */
  function WeightTris(w: WeightMatrix, j: nat, ne: nat): (s: seq<Tri>)
    ensures |s| == ne
  {
    seq(ne, e requires 0 <= e < ne => ImportanceTri(ImportanceAt(w, e, j)))
  }

  /** The experts' rating TFNs for alternative a on criterion j, missing labels read as "F". */
  function RatingTris(ev: RatingTensor, a: nat, j: nat, ne: nat): (s: seq<Tri>)
    ensures |s| == ne
  {
    seq(ne, e requires 0 <= e < ne => PerformanceTri(PerformanceAt(ev, e, a, j)))
  }

  function AggregatedWeight(w: WeightMatrix, j: nat, ne: nat): Tri
    requires ne >= 1
  {
    Mean(WeightTris(w, j, ne))
  }

  function AggregatedRating(ev: RatingTensor, a: nat, j: nat, ne: nat): Tri
    requires ne >= 1
  {
    Mean(RatingTris(ev, a, j, ne))
  }

  /** The aggregated weight of each of the nc criteria. */
  function AggregatedCriteria(w: WeightMatrix, nc: nat, ne: nat): (r: seq<Tri>)
    requires ne >= 1
    ensures |r| == nc
  {
    seq(nc, j requires 0 <= j < nc => AggregatedWeight(w, j, ne))
  }

  /** The na x nc matrix of aggregated ratings. */
  function AggregatedAlts(ev: RatingTensor, na: nat, nc: nat, ne: nat): (r: seq<seq<Tri>>)
    requires ne >= 1
    ensures |r| == na && forall a :: 0 <= a < na ==> |r[a]| == nc
  {
    seq(na, a requires 0 <= a < na => seq(nc, j requires 0 <= j < nc => AggregatedRating(ev, a, j, ne)))
  }

  // ---------------------------------------------------------------------------
  // The page's loops

  /** Per criterion: sum the experts' TFNs, then divide by the number of experts. */
  method ComputeAggregatedCriteria(w: WeightMatrix, nc: nat, ne: nat) returns (result: seq<Tri>)
    requires ne >= 1
    ensures result == AggregatedCriteria(w, nc, ne)
  {
    result := [];
    var j := 0;
    while j < nc
      invariant 0 <= j <= nc
      invariant |result| == j
      invariant forall j' :: 0 <= j' < j ==> result[j'] == AggregatedWeight(w, j', ne)
    {
      ghost var tris := WeightTris(w, j, ne);
      var sum := Zero;
      var e := 0;
      while e < ne
        invariant 0 <= e <= ne
        invariant sum == SumTris(tris[..e])
      {
        var term := if e < |w| && j < |w[e]| && w[e][j].Some? then w[e][j].value else M;
        var tri := ImportanceTri(term);
        assert tris[..e + 1][..e] == tris[..e];
        sum := AddTri(sum, tri);
        e := e + 1;
      }
      assert tris[..ne] == tris;
      result := result + [DivTriScalar(sum, ne as real)];
      j := j + 1;
    }
  }

  /** Per alternative and criterion: sum the experts' TFNs, then divide by the number of experts. */
  method ComputeAggregatedAlts(ev: RatingTensor, na: nat, nc: nat, ne: nat) returns (res: seq<seq<Tri>>)
    requires ne >= 1
    ensures res == AggregatedAlts(ev, na, nc, ne)
  {
    res := [];
    var a := 0;
    while a < na
      invariant 0 <= a <= na
      invariant |res| == a
      invariant forall a' :: 0 <= a' < a ==> res[a'] == AggregatedAlts(ev, na, nc, ne)[a']
    {
      var row := [];
      var j := 0;
      while j < nc
        invariant 0 <= j <= nc
        invariant |row| == j
        invariant forall j' :: 0 <= j' < j ==> row[j'] == AggregatedRating(ev, a, j', ne)
      {
        ghost var tris := RatingTris(ev, a, j, ne);
        var sum := Zero;
        var e := 0;
        while e < ne
          invariant 0 <= e <= ne
          invariant sum == SumTris(tris[..e])
        {
          var term := if e < |ev| && a < |ev[e]| && j < |ev[e][a]| && ev[e][a][j].Some?
                      then ev[e][a][j].value else F;
          var tri := PerformanceTri(term);
          assert tris[..e + 1][..e] == tris[..e];
          sum := AddTri(sum, tri);
          e := e + 1;
        }
        assert tris[..ne] == tris;
        row := row + [DivTriScalar(sum, ne as real)];
        j := j + 1;
      }
      res := res + [row];
      a := a + 1;
    }
  }

  // ---------------------------------------------------------------------------
  // Properties

  /** The mean of n equal TFNs is that TFN. */
  lemma MeanOfConstant(s: seq<Tri>, t: Tri)
    requires |s| > 0
    requires forall i :: 0 <= i < |s| ==> s[i] == t
    ensures Mean(s) == t
  {
    var n := |s| as real;
    SumOfConstant(s, t);
    var r := Mean(s);
    assert r.l * n == t.l * n && r.m * n == t.m * n && r.u * n == t.u * n;
  }

  /** The mean of ordered TFNs inside [0,1] is an ordered TFN inside [0,1]. */
  lemma MeanOfUnit(s: seq<Tri>)
    requires |s| > 0
    requires forall i :: 0 <= i < |s| ==> InUnit(s[i])
    ensures InUnit(Mean(s))
  {
    var n := |s| as real;
    SumOfUnit(s);
    var sum := SumTris(s);
    assert Mean(s) == Tri(sum.l / n, sum.m / n, sum.u / n);
    ScaledIntoUnit(sum, n);
  }

  /** An ordered non-negative TFN whose upper bound is at most n, divided by n,
      lies inside [0,1]. */
  lemma ScaledIntoUnit(t: Tri, n: real)
    requires 0.0 < n && 0.0 <= t.l <= t.m <= t.u <= n
    ensures InUnit(Tri(t.l / n, t.m / n, t.u / n))
  {
    DivMonotone(0.0, t.l, n);
    DivMonotone(t.l, t.m, n);
    DivMonotone(t.m, t.u, n);
    DivMonotone(t.u, n, n);
  }

  /** When every expert gives criterion j the same label t (a missing label
      counting as "M"), the aggregated weight is t's TFN exactly. */
  lemma UnanimousWeight(w: WeightMatrix, j: nat, ne: nat, t: Importance)
    requires ne >= 1
    requires forall e: nat :: e < ne ==> ImportanceAt(w, e, j) == t
    ensures AggregatedWeight(w, j, ne) == ImportanceTri(t)
  {
    MeanOfConstant(WeightTris(w, j, ne), ImportanceTri(t));
  }

  /** When every expert gives alternative a on criterion j the same label t
      (a missing label counting as "F"), the aggregated rating is t's TFN exactly. */
  lemma UnanimousRating(ev: RatingTensor, a: nat, j: nat, ne: nat, t: Performance)
    requires ne >= 1
    requires forall e: nat :: e < ne ==> PerformanceAt(ev, e, a, j) == t
    ensures AggregatedRating(ev, a, j, ne) == PerformanceTri(t)
  {
    MeanOfConstant(RatingTris(ev, a, j, ne), PerformanceTri(t));
  }

  /** A criterion no expert has judged gets the TFN of "M". */
  lemma MissingWeightsReadAsM(w: WeightMatrix, j: nat, ne: nat)
    requires ne >= 1
    requires forall e: nat :: e < ne ==> WeightCell(w, e, j) == None
    ensures AggregatedWeight(w, j, ne) == Tri(0.3, 0.5, 0.7)
  {
    UnanimousWeight(w, j, ne, M);
  }

  /** A cell no expert has judged gets the TFN of "F". */
  lemma MissingRatingsReadAsF(ev: RatingTensor, a: nat, j: nat, ne: nat)
    requires ne >= 1
    requires forall e: nat :: e < ne ==> RatingCell(ev, e, a, j) == None
    ensures AggregatedRating(ev, a, j, ne) == Tri(0.3, 0.5, 0.7)
  {
    UnanimousRating(ev, a, j, ne, F);
  }

  /** Every aggregated weight is an ordered TFN inside [0,1]. */
  lemma AggregatedCriteriaInUnit(w: WeightMatrix, nc: nat, ne: nat)
    requires ne >= 1
    ensures forall j :: 0 <= j < nc ==> InUnit(AggregatedCriteria(w, nc, ne)[j])
  {
    forall j | 0 <= j < nc
      ensures InUnit(AggregatedCriteria(w, nc, ne)[j])
    {
      MeanOfUnit(WeightTris(w, j, ne));
    }
  }

  /** Every aggregated rating is an ordered TFN inside [0,1]. */
  lemma AggregatedAltsInUnit(ev: RatingTensor, na: nat, nc: nat, ne: nat)
    requires ne >= 1
    ensures forall a, j :: 0 <= a < na && 0 <= j < nc ==> InUnit(AggregatedAlts(ev, na, nc, ne)[a][j])
  {
    forall a, j | 0 <= a < na && 0 <= j < nc
      ensures InUnit(AggregatedAlts(ev, na, nc, ne)[a][j])
    {
      MeanOfUnit(RatingTris(ev, a, j, ne));
    }
  }
}
