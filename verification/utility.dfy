/** Utility measures per alternative: the group utility S (the fuzzy sum of
    the weighted row and its defuzzified value) and the individual regret R
    (the largest defuzzified weighted value in the row). */
module Utility {
  import opened Fuzzy
  import opened Reference

  /** Largest defuzzified value among the first n entries of a row. */
  function MaxDefuzz(row: seq<Tri>, n: nat): real
    requires 0 < n <= |row|
  {
    if n == 1 then Defuzz(row[0]) else Max(MaxDefuzz(row, n - 1), Defuzz(row[n - 1]))
  }

  /** R of one row: the largest defuzzified entry, or 0 for an empty row. */
  function Regret(row: seq<Tri>): real {
    if |row| == 0 then 0.0 else MaxDefuzz(row, |row|)
  }

  /** S_fuzzy: the fuzzy sum of each alternative's weighted row. */
  function SFuzzy(wn: seq<seq<Tri>>, na: nat, nc: nat): (r: seq<Tri>)
    requires IsMatrix(wn, na, nc)
    ensures |r| == na
  {
    seq(na, a requires 0 <= a < na => SumTris(wn[a]))
  }

  /** S_defuzz: the defuzzified S_fuzzy. */
  function SDefuzz(wn: seq<seq<Tri>>, na: nat, nc: nat): (r: seq<real>)
    requires IsMatrix(wn, na, nc)
    ensures |r| == na
  {
    seq(na, a requires 0 <= a < na => Defuzz(SumTris(wn[a])))
  }

  /** R_defuzz: the regret of each alternative's weighted row. */
  function RDefuzz(wn: seq<seq<Tri>>, na: nat, nc: nat): (r: seq<real>)
    requires IsMatrix(wn, na, nc)
    ensures |r| == na
  {
    seq(na, a requires 0 <= a < na => Regret(wn[a]))
  }

  /** The page's loop: one pass per row accumulates the fuzzy sum and the
      running maximum of the defuzzified entries (`seen` is false while that
      maximum still holds its initial minus infinity). */
  method ComputeUtility(wn: seq<seq<Tri>>, na: nat, nc: nat)
    returns (sFuzzy: seq<Tri>, sDefuzz: seq<real>, rDefuzz: seq<real>)
    requires IsMatrix(wn, na, nc)
    ensures sFuzzy == SFuzzy(wn, na, nc)
    ensures sDefuzz == SDefuzz(wn, na, nc)
    ensures rDefuzz == RDefuzz(wn, na, nc)
  {
    sFuzzy, sDefuzz, rDefuzz := [], [], [];
    var a := 0;
    while a < na
      invariant 0 <= a <= na
      invariant |sFuzzy| == a && |sDefuzz| == a && |rDefuzz| == a
      invariant forall a' :: 0 <= a' < a ==> sFuzzy[a'] == SumTris(wn[a'])
      invariant forall a' :: 0 <= a' < a ==> sDefuzz[a'] == Defuzz(SumTris(wn[a']))
      invariant forall a' :: 0 <= a' < a ==> rDefuzz[a'] == Regret(wn[a'])
    {
      var sumTri := Zero;
      var maxVal := 0.0;
      var seen := false;
      var j := 0;
      while j < nc
        invariant 0 <= j <= nc
        invariant sumTri == SumTris(wn[a][..j])
        invariant seen == (j > 0)
        invariant seen ==> maxVal == MaxDefuzz(wn[a], j)
      {
        var wnormTri := wn[a][j];
        assert wn[a][..j + 1][..j] == wn[a][..j];
        sumTri := AddTri(sumTri, wnormTri);
        var def := Defuzz(wnormTri);
        if !seen || def > maxVal { maxVal := def; }
        seen := true;
        j := j + 1;
      }
      assert wn[a][..nc] == wn[a];
      sFuzzy := sFuzzy + [sumTri];
      var sDef := Defuzz(sumTri);
      sDefuzz := sDefuzz + [sDef];
      rDefuzz := rDefuzz + [if !seen then 0.0 else maxVal];
      a := a + 1;
    }
  }

  // ---------------------------------------------------------------------------
  // Properties

  /** The running maximum is at least every defuzzified entry and equals one of them. */
  lemma {:induction false} MaxDefuzzBounds(row: seq<Tri>, n: nat)
    requires 0 < n <= |row|
    ensures forall j :: 0 <= j < n ==> Defuzz(row[j]) <= MaxDefuzz(row, n)
    ensures exists j :: 0 <= j < n && MaxDefuzz(row, n) == Defuzz(row[j])
  {
    if n == 1 {
      assert MaxDefuzz(row, n) == Defuzz(row[0]);
    } else {
      MaxDefuzzBounds(row, n - 1);
      var k :| 0 <= k < n - 1 && MaxDefuzz(row, n - 1) == Defuzz(row[k]);
      if MaxDefuzz(row, n) == Defuzz(row[n - 1]) {
        assert 0 <= n - 1 < n;
      } else {
        assert MaxDefuzz(row, n) == Defuzz(row[k]);
      }
    }
  }

  /** R is the largest defuzzified entry of the row (0 for a row without
      criteria); S is the sum of the defuzzified entries. */
  lemma UtilityMeaning(wn: seq<seq<Tri>>, na: nat, nc: nat, a: nat)
    requires IsMatrix(wn, na, nc) && a < na
    ensures SDefuzz(wn, na, nc)[a] == SumDefuzz(wn[a])
    ensures forall j :: 0 <= j < nc ==> Defuzz(wn[a][j]) <= RDefuzz(wn, na, nc)[a]
    ensures nc > 0 ==> exists j :: 0 <= j < nc && RDefuzz(wn, na, nc)[a] == Defuzz(wn[a][j])
    ensures nc == 0 ==> RDefuzz(wn, na, nc)[a] == 0.0
  {
    var row := wn[a];
    assert SDefuzz(wn, na, nc)[a] == Defuzz(SumTris(row));
    assert RDefuzz(wn, na, nc)[a] == Regret(row);
    DefuzzOfSum(row);
    if nc > 0 {
      MaxDefuzzBounds(row, nc);
    }
  }

  /** For a non-negative weighted matrix: 0 <= R <= S for every alternative. */
  lemma RegretBelowUtility(wn: seq<seq<Tri>>, na: nat, nc: nat, a: nat)
    requires IsMatrix(wn, na, nc) && a < na
    requires forall j :: 0 <= j < nc ==> NonNeg(wn[a][j])
    ensures 0.0 <= RDefuzz(wn, na, nc)[a] <= SDefuzz(wn, na, nc)[a]
  {
    var row := wn[a];
    assert SDefuzz(wn, na, nc)[a] == Defuzz(SumTris(row));
    assert RDefuzz(wn, na, nc)[a] == Regret(row);
    DefuzzOfSum(row);
    NonNegSumDefuzz(row);
    if nc > 0 {
      MaxDefuzzBounds(row, nc);
      var k :| 0 <= k < nc && MaxDefuzz(row, nc) == Defuzz(row[k]);
      TermBelowSum(row, k);
    }
  }
}
