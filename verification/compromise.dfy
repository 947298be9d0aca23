/** The compromise index Q: for every alternative, the v-weighted combination
    of its S and R rescaled between their best (lowest) and worst (highest)
    values over all alternatives. */
module Compromise {
  import opened Fuzzy

  /** Smallest of the first n values. */
  function LowestOf(s: seq<real>, n: nat): real
    requires 0 < n <= |s|
  {
    if n == 1 then s[0] else Min(LowestOf(s, n - 1), s[n - 1])
  }

  /** Largest of the first n values. */
  function HighestOf(s: seq<real>, n: nat): real
    requires 0 < n <= |s|
  {
    if n == 1 then s[0] else Max(HighestOf(s, n - 1), s[n - 1])
  }

  /** Math.min over a non-empty list (S* and R*). */
  function Lowest(s: seq<real>): real
    requires |s| > 0
  {
    LowestOf(s, |s|)
  }

  /** Math.max over a non-empty list (S- and R-). */
  function Highest(s: seq<real>): real
    requires |s| > 0
  {
    HighestOf(s, |s|)
  }

  /** Q of one alternative, given S*, S-, R*, R- and the strategy weight v. */
  function QValue(si: real, ri: real, sStar: real, sMinus: real, rStar: real, rMinus: real, v: real): real {
    var termS := SafeDiv(si - sStar, sMinus - sStar);
    var termR := if rMinus == rStar then 0.0 else SafeDiv(ri - rStar, rMinus - rStar);
    v * termS + (1.0 - v) * termR
  }

  /** Q_defuzz: all zeros when the S values do not spread (including the empty
      list), QValue of each alternative otherwise. */
  function QDefuzz(S: seq<real>, R: seq<real>, v: real): (q: seq<real>)
    requires |S| == |R|
    ensures |q| == |S|
  {
    if |S| == 0 || Highest(S) == Lowest(S) then seq(|S|, _ => 0.0)
    else
      seq(|S|, i requires 0 <= i < |S| => QValue(S[i], R[i], Lowest(S), Highest(S), Lowest(R), Highest(R), v))
  }

  // ---------------------------------------------------------------------------
  // Properties

  /** The lowest value is at most every value and is one of them. */
  lemma {:induction false} LowestOfBounds(s: seq<real>, n: nat)
    requires 0 < n <= |s|
    ensures forall i :: 0 <= i < n ==> LowestOf(s, n) <= s[i]
    ensures exists i :: 0 <= i < n && LowestOf(s, n) == s[i]
  {
    if n == 1 {
      assert LowestOf(s, n) == s[0];
    } else {
      LowestOfBounds(s, n - 1);
      var k :| 0 <= k < n - 1 && LowestOf(s, n - 1) == s[k];
      if LowestOf(s, n) != s[n - 1] {
        assert LowestOf(s, n) == s[k];
      }
    }
  }

  /** The highest value is at least every value and is one of them. */
  lemma {:induction false} HighestOfBounds(s: seq<real>, n: nat)
    requires 0 < n <= |s|
    ensures forall i :: 0 <= i < n ==> s[i] <= HighestOf(s, n)
    ensures exists i :: 0 <= i < n && HighestOf(s, n) == s[i]
  {
    if n == 1 {
      assert HighestOf(s, n) == s[0];
    } else {
      HighestOfBounds(s, n - 1);
      var k :| 0 <= k < n - 1 && HighestOf(s, n - 1) == s[k];
      if HighestOf(s, n) != s[n - 1] {
        assert HighestOf(s, n) == s[k];
      }
    }
  }

  lemma ExtremaBounds(s: seq<real>)
    requires |s| > 0
    ensures forall i :: 0 <= i < |s| ==> Lowest(s) <= s[i] <= Highest(s)
    ensures Lowest(s) <= Highest(s)
  {
    LowestOfBounds(s, |s|);
    HighestOfBounds(s, |s|);
  }

  /** (x - lo) / (hi - lo) is in [0,1] for lo <= x <= hi, and grows with x. */
  lemma RatioInUnit(x: real, y: real, lo: real, hi: real)
    requires lo <= x <= hi && lo <= y <= hi && lo < hi
    ensures 0.0 <= SafeDiv(x - lo, hi - lo) <= 1.0
    ensures x <= y ==> SafeDiv(x - lo, hi - lo) <= SafeDiv(y - lo, hi - lo)
    ensures SafeDiv(x - lo, hi - lo) <= SafeDiv(y - lo, hi - lo) ==> x <= y
  {
    var d := hi - lo;
    DivMonotone(0.0, x - lo, d);
    DivMonotone(x - lo, d, d);
    if x <= y {
      DivMonotone(x - lo, y - lo, d);
    } else {
      DivMonotone(y - lo, x - lo, d);
      DivInjective(y - lo, x - lo, d);
    }
  }

  /** Dividing distinct numbers by the same non-zero divisor keeps them distinct. */
  lemma DivInjective(a: real, b: real, d: real)
    requires d != 0.0 && a != b
    ensures a / d != b / d
  {
    assert a / d * d == a;
    assert b / d * d == b;
  }

  /** A v-weighted combination of two values in [0,1] is in [0,1] and is
      monotone in both values. */
  lemma ConvexCombination(v: real, a: real, b: real, a': real, b': real)
    requires 0.0 <= v <= 1.0
    requires 0.0 <= a <= 1.0 && 0.0 <= b <= 1.0
    ensures 0.0 <= v * a + (1.0 - v) * b <= 1.0
    ensures a <= a' && b <= b' ==> v * a + (1.0 - v) * b <= v * a' + (1.0 - v) * b'
  {
    assert 0.0 <= v * a <= v;
    assert 0.0 <= (1.0 - v) * b <= 1.0 - v;
    if a <= a' && b <= b' {
      assert v * a <= v * a';
      assert (1.0 - v) * b <= (1.0 - v) * b';
    }
  }

  /** Degenerate S range: every Q is 0. Otherwise Q is the plain formula
      (the S divisor is never zero) and, for v in [0,1], lies in [0,1]. */
  lemma QInUnit(S: seq<real>, R: seq<real>, v: real, i: nat)
    requires |S| == |R| && i < |S|
    ensures Highest(S) == Lowest(S) ==> QDefuzz(S, R, v)[i] == 0.0
    ensures Highest(S) != Lowest(S) ==>
      QDefuzz(S, R, v)[i] == v * ((S[i] - Lowest(S)) / (Highest(S) - Lowest(S)))
        + (1.0 - v) * (if Highest(R) == Lowest(R) then 0.0 else (R[i] - Lowest(R)) / (Highest(R) - Lowest(R)))
    ensures 0.0 <= v <= 1.0 ==> 0.0 <= QDefuzz(S, R, v)[i] <= 1.0
  {
    ExtremaBounds(S);
    ExtremaBounds(R);
    if Highest(S) != Lowest(S) {
      assert QDefuzz(S, R, v)[i] == QValue(S[i], R[i], Lowest(S), Highest(S), Lowest(R), Highest(R), v);
      if 0.0 <= v <= 1.0 {
        QValueMonotone(S[i], R[i], S[i], R[i], Lowest(S), Highest(S), Lowest(R), Highest(R), v);
      }
    }
  }

  /** An alternative no worse than another in both S and R has no larger Q. */
  lemma QRespectsDominance(S: seq<real>, R: seq<real>, v: real, i: nat, k: nat)
    requires |S| == |R| && i < |S| && k < |S|
    requires 0.0 <= v <= 1.0
    requires S[i] <= S[k] && R[i] <= R[k]
    ensures QDefuzz(S, R, v)[i] <= QDefuzz(S, R, v)[k]
  {
    ExtremaBounds(S);
    ExtremaBounds(R);
    if Highest(S) != Lowest(S) {
      var sS, sM, rS, rM := Lowest(S), Highest(S), Lowest(R), Highest(R);
      assert QDefuzz(S, R, v)[i] == QValue(S[i], R[i], sS, sM, rS, rM, v);
      assert QDefuzz(S, R, v)[k] == QValue(S[k], R[k], sS, sM, rS, rM, v);
      QValueMonotone(S[i], R[i], S[k], R[k], sS, sM, rS, rM, v);
    }
  }

  /** Between the extremes and for v in [0,1], QValue lies in [0,1] and does
      not decrease when S and R do not decrease. */
  lemma QValueMonotone(si: real, ri: real, sk: real, rk: real, sStar: real, sMinus: real, rStar: real, rMinus: real, v: real)
    requires 0.0 <= v <= 1.0 && sStar < sMinus && rStar <= rMinus
    requires sStar <= si <= sMinus && sStar <= sk <= sMinus
    requires rStar <= ri <= rMinus && rStar <= rk <= rMinus
    ensures 0.0 <= QValue(si, ri, sStar, sMinus, rStar, rMinus, v) <= 1.0
    ensures si <= sk && ri <= rk ==>
      QValue(si, ri, sStar, sMinus, rStar, rMinus, v) <= QValue(sk, rk, sStar, sMinus, rStar, rMinus, v)
  {
    RatioInUnit(si, sk, sStar, sMinus);
    RatioInUnit(sk, sk, sStar, sMinus);
    if rMinus != rStar {
      RatioInUnit(ri, rk, rStar, rMinus);
      RatioInUnit(rk, rk, rStar, rMinus);
    }
    var tSi := SafeDiv(si - sStar, sMinus - sStar);
    var tSk := SafeDiv(sk - sStar, sMinus - sStar);
    var tRi := if rMinus == rStar then 0.0 else SafeDiv(ri - rStar, rMinus - rStar);
    var tRk := if rMinus == rStar then 0.0 else SafeDiv(rk - rStar, rMinus - rStar);
    ConvexCombination(v, tSi, tRi, tSk, tRk);
  }

  /** With v = 1, ordering by Q is ordering by S. */
  lemma QAtVOne(S: seq<real>, R: seq<real>, i: nat, k: nat)
    requires |S| == |R| && i < |S| && k < |S|
    ensures QDefuzz(S, R, 1.0)[i] <= QDefuzz(S, R, 1.0)[k] <==> S[i] <= S[k]
  {
    ExtremaBounds(S);
    if Highest(S) != Lowest(S) {
      RatioInUnit(S[i], S[k], Lowest(S), Highest(S));
    }
  }

  /** With v = 0 and a spread of S values, ordering by Q is ordering by R. */
  lemma QAtVZero(S: seq<real>, R: seq<real>, i: nat, k: nat)
    requires |S| == |R| && i < |S| && k < |S|
    requires Highest(S) != Lowest(S)
    ensures QDefuzz(S, R, 0.0)[i] <= QDefuzz(S, R, 0.0)[k] <==> R[i] <= R[k]
  {
    ExtremaBounds(R);
    if Highest(R) != Lowest(R) {
      RatioInUnit(R[i], R[k], Lowest(R), Highest(R));
    }
  }

  /** An alternative that has both the lowest S and the lowest R has Q = 0. */
  lemma QZeroAtDoubleBest(S: seq<real>, R: seq<real>, v: real, i: nat)
    requires |S| == |R| && i < |S|
    requires S[i] == Lowest(S) && R[i] == Lowest(R)
    ensures QDefuzz(S, R, v)[i] == 0.0
  {
  }
}
