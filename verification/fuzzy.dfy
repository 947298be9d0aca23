/** Triangular fuzzy numbers (TFNs) and the arithmetic helpers of the engine.
    A TFN is a (lower, mode, upper) triple; every helper is total over reals. */
module Fuzzy {

  datatype Tri = Tri(l: real, m: real, u: real)

  const Zero: Tri := Tri(0.0, 0.0, 0.0)

  /** An ordered triple l <= m <= u: the shape every label TFN has. */
  predicate Ordered(t: Tri) {
    t.l <= t.m <= t.u
  }

  predicate NonNeg(t: Tri) {
    0.0 <= t.l && 0.0 <= t.m && 0.0 <= t.u
  }

  /** Ordered and inside the unit interval. */
  predicate InUnit(t: Tri) {
    0.0 <= t.l <= t.m <= t.u <= 1.0
  }

  /** Componentwise a >= b. */
  predicate Dominates(a: Tri, b: Tri) {
    a.l >= b.l && a.m >= b.m && a.u >= b.u
  }

  function AddTri(a: Tri, b: Tri): Tri {
    Tri(a.l + b.l, a.m + b.m, a.u + b.u)
  }

  /** Fuzzy subtraction: lower minus upper, mode minus mode, upper minus lower.
      The spreads of the operands add up, and ordered operands give an
      ordered difference. */
  function SubTri(a: Tri, b: Tri): (r: Tri)
    ensures r.u - r.l == (a.u - a.l) + (b.u - b.l)
    ensures Ordered(a) && Ordered(b) ==> Ordered(r)
  {
    Tri(a.l - b.u, a.m - b.m, a.u - b.l)
  }

  /** The triple with its lower and upper components exchanged. */
  function Mirror(t: Tri): Tri {
    Tri(t.u, t.m, t.l)
  }

  function MulTriScalar(a: Tri, s: real): Tri {
    Tri(a.l * s, a.m * s, a.u * s)
  }

  /** Componentwise division by a scalar. The source does not guard the divisor,
      so the model requires it to be non-zero; the result undoes MulTriScalar. */
  function DivTriScalar(a: Tri, s: real): (r: Tri)
    requires s != 0.0
    ensures MulTriScalar(r, s) == a
  {
    Tri(a.l / s, a.m / s, a.u / s)
  }

  /** Elementwise product: non-negative operands give a non-negative product. */
  function MulTri(a: Tri, b: Tri): (r: Tri)
    ensures NonNeg(a) && NonNeg(b) ==> NonNeg(r)
  {
    Tri(a.l * b.l, a.m * b.m, a.u * b.u)
  }

  /** Division that yields 0 for a zero divisor and is otherwise the inverse of
      multiplication. */
  function SafeDiv(x: real, y: real): (r: real)
    ensures y != 0.0 ==> r * y == x
    ensures y == 0.0 ==> r == 0.0
  {
    if y == 0.0 then 0.0 else x / y
  }

  /** Approximate fuzzy division: a's lower over b's upper, modes, a's upper
      over b's lower. Each component undoes a multiplication by its divisor,
      and is 0 where that divisor is 0. */
  function DivTri(a: Tri, b: Tri): (r: Tri)
    ensures b.u != 0.0 ==> r.l * b.u == a.l
    ensures b.m != 0.0 ==> r.m * b.m == a.m
    ensures b.l != 0.0 ==> r.u * b.l == a.u
    ensures (b.u == 0.0 ==> r.l == 0.0) && (b.m == 0.0 ==> r.m == 0.0) && (b.l == 0.0 ==> r.u == 0.0)
  {
    Tri(SafeDiv(a.l, b.u), SafeDiv(a.m, b.m), SafeDiv(a.u, b.l))
  }

  /** Simple-mean defuzzification: for an ordered triple it lies between the
      lower and the upper bound. */
  function Defuzz(t: Tri): (r: real)
    ensures Ordered(t) ==> t.l <= r <= t.u
  {
    (t.l + t.m + t.u) / 3.0
  }

  function Max(x: real, y: real): (r: real)
    ensures r >= x && r >= y && (r == x || r == y)
  {
    if x >= y then x else y
  }

  function Min(x: real, y: real): (r: real)
    ensures r <= x && r <= y && (r == x || r == y)
  {
    if x <= y then x else y
  }

  /** Componentwise maximum: the least triple dominating both arguments. */
  function TriMax(a: Tri, b: Tri): (r: Tri)
    ensures Dominates(r, a) && Dominates(r, b)
    ensures forall c :: Dominates(c, a) && Dominates(c, b) ==> Dominates(c, r)
  {
    Tri(Max(a.l, b.l), Max(a.m, b.m), Max(a.u, b.u))
  }

  /** Componentwise minimum: the greatest triple dominated by both arguments. */
  function TriMin(a: Tri, b: Tri): (r: Tri)
    ensures Dominates(a, r) && Dominates(b, r)
    ensures forall c :: Dominates(a, c) && Dominates(b, c) ==> Dominates(r, c)
  {
    Tri(Min(a.l, b.l), Min(a.m, b.m), Min(a.u, b.u))
  }

  /** Fuzzy sum of a sequence of TFNs, accumulated left to right from Zero. */
  function SumTris(s: seq<Tri>): Tri
  {
    if |s| == 0 then Zero else AddTri(SumTris(s[..|s| - 1]), s[|s| - 1])
  }

  /** Sum of the defuzzified values of a sequence. */
  function SumDefuzz(s: seq<Tri>): real
  {
    if |s| == 0 then 0.0 else SumDefuzz(s[..|s| - 1]) + Defuzz(s[|s| - 1])
  }

  // ---------------------------------------------------------------------------
  // Properties of the helpers

  /** Defuzzification is additive and ignores a swap of the lower and upper
      bounds. */
  lemma DefuzzLinear(a: Tri, b: Tri)
    ensures Defuzz(AddTri(a, b)) == Defuzz(a) + Defuzz(b)
    ensures Defuzz(Mirror(a)) == Defuzz(a)
  {
  }

  /** The defuzzified fuzzy sum is the sum of the defuzzified terms. */
  lemma {:induction false} DefuzzOfSum(s: seq<Tri>)
    ensures Defuzz(SumTris(s)) == SumDefuzz(s)
  {
    if |s| > 0 {
      DefuzzOfSum(s[..|s| - 1]);
      DefuzzLinear(SumTris(s[..|s| - 1]), s[|s| - 1]);
    }
  }

  /** SafeDiv commutes with negating both operands: the identity behind the
      mirrored cost normalisation. */
  lemma SafeDivNegBoth(x: real, y: real)
    ensures SafeDiv(-x, -y) == SafeDiv(x, y)
  {
    if y != 0.0 {
      assert SafeDiv(-x, -y) * (-y) == -x;
      assert SafeDiv(x, y) * y == x;
    }
  }

  /** A sum of non-negative TFNs is non-negative. */
  lemma {:induction false} SumTrisNonNeg(s: seq<Tri>)
    requires forall i :: 0 <= i < |s| ==> NonNeg(s[i])
    ensures NonNeg(SumTris(s))
  {
    if |s| > 0 {
      SumTrisNonNeg(s[..|s| - 1]);
    }
  }

  /** A sum of n copies of t is t scaled by n. */
  lemma {:induction false} SumOfConstant(s: seq<Tri>, t: Tri)
    requires forall i :: 0 <= i < |s| ==> s[i] == t
    ensures SumTris(s) == MulTriScalar(t, |s| as real)
  {
    if |s| > 0 {
      SumOfConstant(s[..|s| - 1], t);
    }
  }

  /** A sum of n ordered TFNs inside [0,1] is ordered and inside [0,n]. */
  lemma {:induction false} SumOfUnit(s: seq<Tri>)
    requires forall i :: 0 <= i < |s| ==> InUnit(s[i])
    ensures Ordered(SumTris(s)) && NonNeg(SumTris(s)) && SumTris(s).u <= |s| as real
  {
    if |s| > 0 {
      SumOfUnit(s[..|s| - 1]);
    }
  }

  /** A sum of the all-zero triple is zero. */
  lemma {:induction false} SumOfZeros(s: seq<Tri>)
    requires forall i :: 0 <= i < |s| ==> s[i] == Zero
    ensures SumTris(s) == Zero
  {
    if |s| > 0 {
      SumOfZeros(s[..|s| - 1]);
    }
  }

  /** Every non-negative term's defuzzified value is bounded by the defuzzified sum. */
  lemma {:induction false} TermBelowSum(s: seq<Tri>, k: nat)
    requires forall i :: 0 <= i < |s| ==> NonNeg(s[i])
    requires k < |s|
    ensures 0.0 <= Defuzz(s[k]) <= SumDefuzz(s)
  {
    NonNegSumDefuzz(s[..|s| - 1]);
    if k < |s| - 1 {
      TermBelowSum(s[..|s| - 1], k);
    }
  }

  lemma {:induction false} NonNegSumDefuzz(s: seq<Tri>)
    requires forall i :: 0 <= i < |s| ==> NonNeg(s[i])
    ensures SumDefuzz(s) >= 0.0
  {
    if |s| > 0 {
      NonNegSumDefuzz(s[..|s| - 1]);
    }
  }

  /** Dividing by a positive number keeps the order. */
  lemma DivMonotone(x: real, y: real, n: real)
    requires 0.0 < n && x <= y
    ensures x / n <= y / n
  {
    assert y / n - x / n == (y - x) / n;
  }

  /** A non-zero number divided by its negation is -1. */
  lemma SafeDivByNegation(x: real)
    requires x != 0.0
    ensures SafeDiv(x, -x) == -1.0
  {
    assert x / -x == -(x / x);
  }
}
