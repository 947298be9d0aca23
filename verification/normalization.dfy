/** Normalisation of every aggregated rating against the ideal and anti-ideal
    of its criterion, clamped to non-negative components, and its weighting by
    the criterion's aggregated fuzzy weight. */
module Normalization {
  import opened Fuzzy
  import opened Judgments
  import opened Reference

  /** Replaces every negative component by 0: the least non-negative triple
      dominating t. */
  function Clamp0(t: Tri): (r: Tri)
    ensures NonNeg(r) && Dominates(r, t)
    ensures forall c :: NonNeg(c) && Dominates(c, t) ==> Dominates(c, r)
  {
    Tri(Max(0.0, t.l), Max(0.0, t.m), Max(0.0, t.u))
  }

  /** The fuzzy distance of f from the ideal fStar, relative to the spread
      between fStar and the anti-ideal fMinus. Benefit criteria divide
      (f* - f) by (f* - f-); cost criteria divide (f - f*) by (f- - f*). */
  function NormalizeCell(fStar: Tri, fMinus: Tri, f: Tri, benefit: bool): (r: Tri)
    ensures NonNeg(r)
  {
    if benefit then Clamp0(DivTri(SubTri(fStar, f), SubTri(fStar, fMinus)))
    else Clamp0(DivTri(SubTri(f, fStar), SubTri(fMinus, fStar)))
  }

  /** normalizedFuzzy: the na x nc matrix of normalised ratings. */
  function NormalizedFuzzy(agg: seq<seq<Tri>>, ideal: seq<Tri>, anti: seq<Tri>, types: CriteriaTypes, na: nat, nc: nat)
    : (r: seq<seq<Tri>>)
    requires IsMatrix(agg, na, nc) && |ideal| == nc && |anti| == nc
    ensures IsMatrix(r, na, nc)
  {
    seq(na, a requires 0 <= a < na =>
      seq(nc, j requires 0 <= j < nc => NormalizeCell(ideal[j], anti[j], agg[a][j], IsBenefit(types, j))))
  }

  /** weightedNormalizedFuzzy: every normalised rating multiplied elementwise by
      its criterion's weight. */
  function WeightedFuzzy(norm: seq<seq<Tri>>, weights: seq<Tri>, na: nat, nc: nat): (r: seq<seq<Tri>>)
    requires IsMatrix(norm, na, nc) && |weights| == nc
    ensures IsMatrix(r, na, nc)
  {
    seq(na, a requires 0 <= a < na => seq(nc, j requires 0 <= j < nc => MulTri(norm[a][j], weights[j])))
  }

  // ---------------------------------------------------------------------------
  // The page's loops

  method ComputeNormalized(agg: seq<seq<Tri>>, ideal: seq<Tri>, anti: seq<Tri>, types: CriteriaTypes, na: nat, nc: nat)
    returns (res: seq<seq<Tri>>)
    requires IsMatrix(agg, na, nc) && |ideal| == nc && |anti| == nc
    ensures res == NormalizedFuzzy(agg, ideal, anti, types, na, nc)
  {
    res := [];
    var a := 0;
    while a < na
      invariant 0 <= a <= na
      invariant |res| == a
      invariant forall a' :: 0 <= a' < a ==> res[a'] == NormalizedFuzzy(agg, ideal, anti, types, na, nc)[a']
    {
      var row := [];
      var j := 0;
      while j < nc
        invariant 0 <= j <= nc
        invariant |row| == j
        invariant forall j' :: 0 <= j' < j ==>
          row[j'] == NormalizeCell(ideal[j'], anti[j'], agg[a][j'], IsBenefit(types, j'))
      {
        var fStar, fMinus, fij := ideal[j], anti[j], agg[a][j];
        var denom := SubTri(fStar, fMinus);
        var numer := SubTri(fStar, fij);
        var normalized;
        if IsBenefit(types, j) {
          normalized := DivTri(numer, denom);
        } else {
          var numerCost := SubTri(fij, fStar);
          var denomCost := SubTri(fMinus, fStar);
          normalized := DivTri(numerCost, denomCost);
        }
        normalized := Clamp0(normalized);
        row := row + [normalized];
        j := j + 1;
      }
      res := res + [row];
      a := a + 1;
    }
  }

  method ComputeWeighted(norm: seq<seq<Tri>>, weights: seq<Tri>, na: nat, nc: nat) returns (res: seq<seq<Tri>>)
    requires IsMatrix(norm, na, nc) && |weights| == nc
    ensures res == WeightedFuzzy(norm, weights, na, nc)
  {
    res := [];
    var a := 0;
    while a < na
      invariant 0 <= a <= na
      invariant |res| == a
      invariant forall a' :: 0 <= a' < a ==> res[a'] == WeightedFuzzy(norm, weights, na, nc)[a']
    {
      var row := [];
      var j := 0;
      while j < nc
        invariant 0 <= j <= nc
        invariant |row| == j
        invariant forall j' :: 0 <= j' < j ==> row[j'] == MulTri(norm[a][j'], weights[j'])
      {
        var prod := MulTri(norm[a][j], weights[j]);
        row := row + [prod];
        j := j + 1;
      }
      res := res + [row];
      a := a + 1;
    }
  }

  // ---------------------------------------------------------------------------
  // Properties

  /** Every component of every normalised rating is non-negative, for benefit
      and cost criteria alike. */
  lemma NormalizedNonNeg(agg: seq<seq<Tri>>, ideal: seq<Tri>, anti: seq<Tri>, types: CriteriaTypes, na: nat, nc: nat)
    requires IsMatrix(agg, na, nc) && |ideal| == nc && |anti| == nc
    ensures forall a, j :: 0 <= a < na && 0 <= j < nc ==> NonNeg(NormalizedFuzzy(agg, ideal, anti, types, na, nc)[a][j])
  {
  }

  /** A zero component of the divisor f* - f- gives a zero component of the
      benefit result instead of a failure. */
  lemma ZeroDivisorGivesZero(fStar: Tri, fMinus: Tri, f: Tri)
    ensures SubTri(fStar, fMinus).u == 0.0 ==> NormalizeCell(fStar, fMinus, f, true).l == 0.0
    ensures SubTri(fStar, fMinus).m == 0.0 ==> NormalizeCell(fStar, fMinus, f, true).m == 0.0
    ensures SubTri(fStar, fMinus).l == 0.0 ==> NormalizeCell(fStar, fMinus, f, true).u == 0.0
  {
  }

  /** The cost formula yields the benefit result with its lower and upper
      components exchanged, and so the same defuzzified value: with the ideal
      always the maximum, a cost criterion still prefers high ratings. */
  lemma CostIsMirroredBenefit(fStar: Tri, fMinus: Tri, f: Tri)
    ensures NormalizeCell(fStar, fMinus, f, false) == Mirror(NormalizeCell(fStar, fMinus, f, true))
    ensures Defuzz(NormalizeCell(fStar, fMinus, f, false)) == Defuzz(NormalizeCell(fStar, fMinus, f, true))
  {
    SafeDivNegBoth(fStar.u - f.l, fStar.l - fMinus.u);
    SafeDivNegBoth(fStar.m - f.m, fStar.m - fMinus.m);
    SafeDivNegBoth(fStar.l - f.u, fStar.u - fMinus.l);
    assert SubTri(f, fStar) == Tri(-(fStar.u - f.l), -(fStar.m - f.m), -(fStar.l - f.u));
    assert SubTri(fMinus, fStar) == Tri(-(fStar.u - fMinus.l), -(fStar.m - fMinus.m), -(fStar.l - fMinus.u));
  }

  /** A rating equal to both the ideal and the anti-ideal is at distance Zero. */
  lemma IdenticalColumnIsZero(t: Tri, benefit: bool)
    ensures NormalizeCell(t, t, t, benefit) == Zero
  {
    if t.u != t.l {
      SafeDivByNegation(t.l - t.u);
      SafeDivByNegation(t.u - t.l);
    }
  }

  /** A rating equal to the ideal is not at distance Zero: fuzzy subtraction
      of a triple from itself leaves a spread, so whenever the ideal has one and
      lies wholly above the anti-ideal, the normalised distance has mode 0 but a
      positive defuzzified value, for benefit and cost criteria alike. */
  lemma IdealRatingKeepsSpread(fStar: Tri, fMinus: Tri, benefit: bool)
    requires Ordered(fMinus) && fStar.l < fStar.u && fMinus.u < fStar.l
    ensures NormalizeCell(fStar, fMinus, fStar, benefit).m == 0.0
    ensures Defuzz(NormalizeCell(fStar, fMinus, fStar, benefit)) > 0.0
  {
    var d := DivTri(SubTri(fStar, fStar), SubTri(fStar, fMinus));
    QuotientSign(fStar.u - fStar.l, fStar.l - fMinus.u);
    QuotientSign(fStar.l - fStar.u, fStar.u - fMinus.l);
    assert d.l <= 0.0 && d.u > 0.0 && d.m == 0.0;
    assert NormalizeCell(fStar, fMinus, fStar, true) == Tri(0.0, 0.0, d.u);
    CostIsMirroredBenefit(fStar, fMinus, fStar);
  }

  /** The sign of a quotient by a positive divisor is the sign of the dividend. */
  lemma QuotientSign(x: real, y: real)
    requires y > 0.0
    ensures x > 0.0 ==> SafeDiv(x, y) > 0.0
    ensures x <= 0.0 ==> SafeDiv(x, y) <= 0.0
  {
    if x > 0.0 {
      DivMonotone(0.0, x, y);
      assert x / y != 0.0 by { assert (x / y) * y == x; }
    } else {
      DivMonotone(x, 0.0, y);
    }
  }

  /** The same on the page's own labels: a "Very Good" rating on a benefit
      criterion whose ideal is "Very Good" and anti-ideal "Medium Poor" is
      normalised to (0, 0, 0.25), not to Zero. */
  lemma VeryGoodAtIdeal()
    ensures NormalizeCell(Tri(0.9, 1.0, 1.0), Tri(0.1, 0.3, 0.5), Tri(0.9, 1.0, 1.0), true) == Tri(0.0, 0.0, 0.25)
  {
    assert SubTri(Tri(0.9, 1.0, 1.0), Tri(0.1, 0.3, 0.5)) == Tri(0.4, 0.7, 0.9);
    assert SafeDiv(-0.1, 0.9) < 0.0;
    assert SafeDiv(0.1, 0.4) == 0.25;
  }

  /** For a rating between the anti-ideal and the ideal, the mode of its
      normalised distance lies in [0,1]. */
  lemma NormalizedModeInUnit(fStar: Tri, fMinus: Tri, f: Tri, benefit: bool)
    requires Dominates(fStar, f) && Dominates(f, fMinus)
    ensures 0.0 <= NormalizeCell(fStar, fMinus, f, benefit).m <= 1.0
  {
    var num, den := fStar.m - f.m, fStar.m - fMinus.m;
    FractionInUnit(num, den);
    assert NormalizeCell(fStar, fMinus, f, true).m == Max(0.0, SafeDiv(num, den));
    CostIsMirroredBenefit(fStar, fMinus, f);
  }

  /** A part over a whole that is at least as large lies in [0,1]. */
  lemma FractionInUnit(x: real, y: real)
    requires 0.0 <= x <= y
    ensures 0.0 <= SafeDiv(x, y) <= 1.0
  {
    if y != 0.0 {
      DivMonotone(0.0, x, y);
      DivMonotone(x, y, y);
    }
  }

  /** Weighting a non-negative matrix by non-negative weights keeps every
      component non-negative. */
  lemma WeightedNonNeg(norm: seq<seq<Tri>>, weights: seq<Tri>, na: nat, nc: nat)
    requires IsMatrix(norm, na, nc) && |weights| == nc
    requires forall a, j :: 0 <= a < na && 0 <= j < nc ==> NonNeg(norm[a][j])
    requires forall j :: 0 <= j < nc ==> NonNeg(weights[j])
    ensures forall a, j :: 0 <= a < na && 0 <= j < nc ==> NonNeg(WeightedFuzzy(norm, weights, na, nc)[a][j])
  {
  }
}
