/** Ideal (f*) and anti-ideal (f-) per criterion: the componentwise maximum
    and minimum of the aggregated ratings over all alternatives. As in the page,
    the ideal is always the maximum and the anti-ideal always the minimum,
    whatever the criterion's benefit flag says. */
module Reference {
  import opened Fuzzy

  /** m has `rows` rows of `cols` TFNs each. */
  predicate IsMatrix(m: seq<seq<Tri>>, rows: nat, cols: nat) {
    |m| == rows && forall a :: 0 <= a < rows ==> |m[a]| == cols
  }

  /** Every row has a column j. */
  predicate HasColumn(m: seq<seq<Tri>>, j: nat) {
    forall a :: 0 <= a < |m| ==> j < |m[a]|
  }

  /** Componentwise maximum of column j over the first n rows. */
  function ColumnMax(m: seq<seq<Tri>>, j: nat, n: nat): Tri
    requires 0 < n <= |m| && HasColumn(m, j)
  {
    if n == 1 then m[0][j] else TriMax(ColumnMax(m, j, n - 1), m[n - 1][j])
  }

  /** Componentwise minimum of column j over the first n rows. */
  function ColumnMin(m: seq<seq<Tri>>, j: nat, n: nat): Tri
    requires 0 < n <= |m| && HasColumn(m, j)
  {
    if n == 1 then m[0][j] else TriMin(ColumnMin(m, j, n - 1), m[n - 1][j])
  }

  /** idealF: per criterion, the componentwise maximum over the na alternatives,
      or Zero when there are none. */
  function IdealF(agg: seq<seq<Tri>>, na: nat, nc: nat): (r: seq<Tri>)
    requires IsMatrix(agg, na, nc)
    ensures |r| == nc
  {
    seq(nc, j requires 0 <= j < nc => if na == 0 then Zero else ColumnMax(agg, j, na))
  }

  /** antiIdealF: per criterion, the componentwise minimum over the na alternatives,
      or Zero when there are none. */
  function AntiIdealF(agg: seq<seq<Tri>>, na: nat, nc: nat): (r: seq<Tri>)
    requires IsMatrix(agg, na, nc)
    ensures |r| == nc
  {
    seq(nc, j requires 0 <= j < nc => if na == 0 then Zero else ColumnMin(agg, j, na))
  }

  // ---------------------------------------------------------------------------
  // The page's loops. `seen` is false exactly while the running extrema still
  // hold their initial infinite value.

  method ComputeIdeal(agg: seq<seq<Tri>>, na: nat, nc: nat) returns (res: seq<Tri>)
    requires IsMatrix(agg, na, nc)
    ensures res == IdealF(agg, na, nc)
  {
    res := [];
    var j := 0;
    while j < nc
      invariant 0 <= j <= nc
      invariant |res| == j
      invariant forall j' :: 0 <= j' < j ==> res[j'] == IdealF(agg, na, nc)[j']
    {
      if na == 0 {
        res := res + [Zero];
      } else {
        var maxL, maxM, maxU := 0.0, 0.0, 0.0;
        var seen := false;
        var a := 0;
        while a < na
          invariant 0 <= a <= na
          invariant seen == (a > 0)
          invariant seen ==> Tri(maxL, maxM, maxU) == ColumnMax(agg, j, a)
        {
          var tri := agg[a][j];
          if !seen || tri.l > maxL { maxL := tri.l; }
          if !seen || tri.m > maxM { maxM := tri.m; }
          if !seen || tri.u > maxU { maxU := tri.u; }
          seen := true;
          a := a + 1;
        }
        res := res + [Tri(maxL, maxM, maxU)];
      }
      j := j + 1;
    }
  }

  method ComputeAntiIdeal(agg: seq<seq<Tri>>, na: nat, nc: nat) returns (res: seq<Tri>)
    requires IsMatrix(agg, na, nc)
    ensures res == AntiIdealF(agg, na, nc)
  {
    res := [];
    var j := 0;
    while j < nc
      invariant 0 <= j <= nc
      invariant |res| == j
      invariant forall j' :: 0 <= j' < j ==> res[j'] == AntiIdealF(agg, na, nc)[j']
    {
      if na == 0 {
        res := res + [Zero];
      } else {
        var minL, minM, minU := 0.0, 0.0, 0.0;
        var seen := false;
        var a := 0;
        while a < na
          invariant 0 <= a <= na
          invariant seen == (a > 0)
          invariant seen ==> Tri(minL, minM, minU) == ColumnMin(agg, j, a)
        {
          var tri := agg[a][j];
          if !seen || tri.l < minL { minL := tri.l; }
          if !seen || tri.m < minM { minM := tri.m; }
          if !seen || tri.u < minU { minU := tri.u; }
          seen := true;
          a := a + 1;
        }
        res := res + [Tri(minL, minM, minU)];
      }
      j := j + 1;
    }
  }

  // ---------------------------------------------------------------------------
  // Properties

  /** The column maximum dominates every row's entry, and each of its
      components is attained by some row. */
  lemma {:induction false} ColumnMaxBounds(m: seq<seq<Tri>>, j: nat, n: nat)
    requires 0 < n <= |m| && HasColumn(m, j)
    ensures forall a :: 0 <= a < n ==> Dominates(ColumnMax(m, j, n), m[a][j])
    ensures exists a :: 0 <= a < n && ColumnMax(m, j, n).l == m[a][j].l
    ensures exists a :: 0 <= a < n && ColumnMax(m, j, n).m == m[a][j].m
    ensures exists a :: 0 <= a < n && ColumnMax(m, j, n).u == m[a][j].u
  {
    if n > 1 {
      ColumnMaxBounds(m, j, n - 1);
    }
  }

  /** The column minimum is dominated by every row's entry, and each of its
      components is attained by some row. */
  lemma {:induction false} ColumnMinBounds(m: seq<seq<Tri>>, j: nat, n: nat)
    requires 0 < n <= |m| && HasColumn(m, j)
    ensures forall a :: 0 <= a < n ==> Dominates(m[a][j], ColumnMin(m, j, n))
    ensures exists a :: 0 <= a < n && ColumnMin(m, j, n).l == m[a][j].l
    ensures exists a :: 0 <= a < n && ColumnMin(m, j, n).m == m[a][j].m
    ensures exists a :: 0 <= a < n && ColumnMin(m, j, n).u == m[a][j].u
  {
    if n > 1 {
      ColumnMinBounds(m, j, n - 1);
    }
  }

  /** The ideal dominates every alternative's rating and the anti-ideal is
      dominated by it; each component of both is some alternative's component;
      both are Zero when there are no alternatives. */
  lemma ReferenceBounds(agg: seq<seq<Tri>>, na: nat, nc: nat, j: nat)
    requires IsMatrix(agg, na, nc) && j < nc
    ensures forall a :: 0 <= a < na ==>
      Dominates(IdealF(agg, na, nc)[j], agg[a][j]) && Dominates(agg[a][j], AntiIdealF(agg, na, nc)[j])
    ensures Dominates(IdealF(agg, na, nc)[j], AntiIdealF(agg, na, nc)[j])
    ensures na > 0 ==> exists a :: 0 <= a < na && IdealF(agg, na, nc)[j].l == agg[a][j].l
    ensures na > 0 ==> exists a :: 0 <= a < na && IdealF(agg, na, nc)[j].m == agg[a][j].m
    ensures na > 0 ==> exists a :: 0 <= a < na && IdealF(agg, na, nc)[j].u == agg[a][j].u
    ensures na > 0 ==> exists a :: 0 <= a < na && AntiIdealF(agg, na, nc)[j].l == agg[a][j].l
    ensures na > 0 ==> exists a :: 0 <= a < na && AntiIdealF(agg, na, nc)[j].m == agg[a][j].m
    ensures na > 0 ==> exists a :: 0 <= a < na && AntiIdealF(agg, na, nc)[j].u == agg[a][j].u
    ensures na == 0 ==> IdealF(agg, na, nc)[j] == Zero && AntiIdealF(agg, na, nc)[j] == Zero
  {
    if na > 0 {
      ColumnMaxBounds(agg, j, na);
      ColumnMinBounds(agg, j, na);
      assert Dominates(agg[0][j], ColumnMin(agg, j, na));
    }
  }

  /** When every alternative has the same rating t on criterion j, the column
      maximum and minimum are both t. */
  lemma {:induction false} ExtremaOfConstant(m: seq<seq<Tri>>, j: nat, n: nat, t: Tri)
    requires 0 < n <= |m| && HasColumn(m, j)
    requires forall a :: 0 <= a < n ==> m[a][j] == t
    ensures ColumnMax(m, j, n) == t && ColumnMin(m, j, n) == t
  {
    if n > 1 {
      ExtremaOfConstant(m, j, n - 1, t);
    }
  }
}
