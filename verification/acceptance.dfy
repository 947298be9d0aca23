/** The compromise conditions: acceptable advantage (the second-best Q exceeds
    the best by at least DQ = 1/(m-1)) and acceptable stability (the best by Q
    is also first by S or by R). When both hold the compromise is the best
    alternative alone; otherwise it is every alternative whose Q is within DQ
    of the best. */
module Acceptance {
  import opened Ranking

  /** Outcome of the check: too few alternatives, or the full verdict. */
  datatype Verdict =
    | TooFewAlternatives
    | Checked(dq: real, advantage: real, cond1: bool, cond2: bool, ok: bool, best: seq<RankingEntry>)

  /** The `ok` field of the outcome (false for too few alternatives). */
  function Ok(c: Verdict): bool {
    c.Checked? && c.ok
  }

  /** The `bestAlternatives` field of the outcome (empty for too few alternatives). */
  function Best(c: Verdict): seq<RankingEntry> {
    if c.Checked? then c.best else []
  }

  /** The Q values of a ranking, in its order. */
  function QKeys(rk: seq<RankingEntry>): (r: seq<real>)
    ensures |r| == |rk| && forall p :: 0 <= p < |rk| ==> r[p] == rk[p].q
  {
    seq(|rk|, p requires 0 <= p < |rk| => rk[p].q)
  }

  /** The entries of rk listed in the given order of positions. */
  function Reorder(rk: seq<RankingEntry>, order: seq<nat>): (r: seq<RankingEntry>)
    requires AllBelow(order, |rk|)
    ensures |r| == |order| && forall p :: 0 <= p < |order| ==> r[p] == rk[order[p]]
  {
    seq(|order|, p requires 0 <= p < |order| => rk[order[p]])
  }

  /** `[...ranking].sort((a, b) => a.Q - b.Q)`: a stable sort by Q. */
  function SortByQ(rk: seq<RankingEntry>): (r: seq<RankingEntry>)
    ensures |r| == |rk|
  {
    Reorder(rk, StableOrder(QKeys(rk), |rk|))
  }

  /** `filter((a) => a.Q <= threshold)`. */
  function UpTo(s: seq<RankingEntry>, threshold: real): (r: seq<RankingEntry>)
    ensures |r| <= |s|
    ensures forall e :: e in r <==> e in s && e.q <= threshold
  {
    if |s| == 0 then []
    else
      assert forall e :: e in s <==> e == s[0] || e in s[1..];
      (if s[0].q <= threshold then [s[0]] else []) + UpTo(s[1..], threshold)
  }

  /** compromiseCheck over a ranking of na alternatives: the conditions are
      checked exactly when there are at least two, and then DQ is the
      reciprocal of m - 1. */
  function CompromiseCheck(ranking: seq<RankingEntry>, na: nat): (c: Verdict)
    requires |ranking| == na
    ensures c.TooFewAlternatives? <==> na < 2
    ensures c.Checked? ==> c.dq == AdvantageThreshold(na)
  {
    if na < 2 then TooFewAlternatives
    else
      Decide(SortByQ(ranking), na)
  }

  /** DQ = 1/(m-1): the advantage the best alternative needs over the second. */
  function AdvantageThreshold(na: nat): (dq: real)
    requires na >= 2
    ensures dq > 0.0 && dq * (na - 1) as real == 1.0
  {
    var k := (na - 1) as real;
    assert (1.0 / k) * k == 1.0;
    1.0 / k
  }

  /** The two conditions and the compromise set, given the list in Q order. */
  function Decide(sorted: seq<RankingEntry>, na: nat): Verdict
    requires |sorted| == na >= 2
  {
    var dq := AdvantageThreshold(na);
    var a1 := sorted[0];
    var a2 := sorted[1];
    var advantage := a2.q - a1.q;
    var cond1 := advantage >= dq;
    var cond2 := a1.sRank == 1 || a1.rRank == 1;
    var best := if cond1 && cond2 then [a1] else UpTo(sorted, a1.q + dq);
    Checked(dq, advantage, cond1, cond2, |best| > 0, best)
  }

  // ---------------------------------------------------------------------------
  // Properties

  /** The stable sort by Q holds the same entries, in ascending Q. */
  lemma SortByQSpec(rk: seq<RankingEntry>)
    ensures forall e :: e in SortByQ(rk) <==> e in rk
    ensures forall p, q :: 0 <= p < q < |rk| ==> SortByQ(rk)[p].q <= SortByQ(rk)[q].q
  {
    var keys := QKeys(rk);
    var order := StableOrder(keys, |rk|);
    StableOrderSpec(keys, |rk|);
    var sorted := SortByQ(rk);
    forall e | e in rk
      ensures e in sorted
    {
      var a :| 0 <= a < |rk| && rk[a] == e;
      var p := IndexOf(order, a);
      assert sorted[p] == e;
    }
    forall p, q | 0 <= p < q < |rk|
      ensures sorted[p].q <= sorted[q].q
    {
      assert Precedes(keys, order[p], order[q]);
    }
  }

  /** Re-sorting a list that is already in ascending Q changes nothing. */
  lemma SortByQOfSorted(rk: seq<RankingEntry>)
    requires forall p, q :: 0 <= p < q < |rk| ==> rk[p].q <= rk[q].q
    ensures SortByQ(rk) == rk
  {
    StableOrderOfSorted(QKeys(rk), |rk|);
  }

  /** The first entry of the Q order has the least Q of the whole ranking. */
  lemma FirstHasLeastQ(ranking: seq<RankingEntry>)
    requires |ranking| > 0
    ensures SortByQ(ranking)[0] in ranking
    ensures forall e :: e in ranking ==> SortByQ(ranking)[0].q <= e.q
  {
    SortByQSpec(ranking);
    var sorted := SortByQ(ranking);
    assert sorted[0] in sorted;
    forall e | e in ranking
      ensures sorted[0].q <= e.q
    {
      assert e in sorted;
      var p :| 0 <= p < |sorted| && sorted[p] == e;
    }
  }

  /** The decision on a list in Q order: DQ is positive, condition 1 holds
      exactly when the advantage reaches DQ, condition 2 exactly when the
      first entry is first by S or by R, the first entry is in the set, every
      member of the set is a list entry within DQ of the first, and the set is
      the first alone when both conditions hold and otherwise exactly the
      entries within DQ. */
  lemma DecideSpec(sorted: seq<RankingEntry>, na: nat)
    requires |sorted| == na >= 2
    ensures var c := Decide(sorted, na);
      && c.Checked?
      && c.dq > 0.0
      && c.advantage == sorted[1].q - sorted[0].q
      && (c.cond1 <==> c.advantage >= c.dq)
      && (c.cond2 <==> sorted[0].sRank == 1 || sorted[0].rRank == 1)
      && sorted[0] in c.best
      && c.ok
      && (forall e :: e in c.best ==> e in sorted && e.q <= sorted[0].q + c.dq)
      && (c.cond1 && c.cond2 ==> c.best == [sorted[0]])
      && (!(c.cond1 && c.cond2) ==> forall e :: e in sorted ==> (e in c.best <==> e.q <= sorted[0].q + c.dq))
  {
    var c := Decide(sorted, na);
    assert sorted[0] in sorted;
    if !(c.cond1 && c.cond2) {
      assert c.best == UpTo(sorted, sorted[0].q + c.dq);
    }
  }

  /** With fewer than two alternatives nothing is accepted. With two or more,
      the advantage is not negative, the check is ok and the
      first alternative of the Q order, which has the least Q of the ranking,
      is in the compromise set. */
  lemma CompromiseAccepts(ranking: seq<RankingEntry>, na: nat)
    requires |ranking| == na
    ensures na < 2 ==> !Ok(CompromiseCheck(ranking, na)) && Best(CompromiseCheck(ranking, na)) == []
    ensures na >= 2 ==>
      var c := CompromiseCheck(ranking, na);
      var a1 := SortByQ(ranking)[0];
      && Ok(c)
      && c.advantage >= 0.0
      && a1 in ranking
      && (forall e :: e in ranking ==> a1.q <= e.q)
      && a1 in c.best
  {
    if na >= 2 {
      var sorted := SortByQ(ranking);
      DecideSpec(sorted, na);
      SortByQSpec(ranking);
      assert sorted[0].q <= sorted[1].q;
      FirstHasLeastQ(ranking);
    }
  }

  /** Every member of the compromise set is an entry of the ranking within DQ
      of the least Q. The set is the best alternative alone when both
      conditions hold, and otherwise exactly the entries within DQ of it. */
  lemma CompromiseSet(ranking: seq<RankingEntry>, na: nat)
    requires |ranking| == na && na >= 2
    ensures
      var c := CompromiseCheck(ranking, na);
      var a1 := SortByQ(ranking)[0];
      && (forall e :: e in c.best ==> e in ranking && e.q <= a1.q + c.dq)
      && (c.cond1 && c.cond2 ==> c.best == [a1])
      && (!(c.cond1 && c.cond2) ==> forall e :: e in ranking ==> (e in c.best <==> e.q <= a1.q + c.dq))
  {
    var sorted := SortByQ(ranking);
    DecideSpec(sorted, na);
    SortByQSpec(ranking);
  }
}
