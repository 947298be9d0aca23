/** Ranking of the alternatives: three stable sorts of the alternative indices
    (by Q, by S and by R), a 1-based rank per alternative from each, and the
    final list in Q order. The sort is the stable insertion order the page's
    `Array.prototype.sort` with an `a.key - b.key` comparator produces. */
module Ranking {

  /** Ascending key, ties in index order: the order a stable sort by key gives. */
  predicate Precedes(keys: seq<real>, i: nat, k: nat)
    requires i < |keys| && k < |keys|
  {
    keys[i] < keys[k] || (keys[i] == keys[k] && i < k)
  }

  predicate AllBelow(order: seq<nat>, n: nat) {
    forall p :: 0 <= p < |order| ==> order[p] < n
  }

  predicate SortedBy(keys: seq<real>, order: seq<nat>)
    requires AllBelow(order, |keys|)
  {
    forall p, q :: 0 <= p < q < |order| ==> Precedes(keys, order[p], order[q])
  }

  /** order lists each of 0 .. n-1 exactly once. */
  ghost predicate IsPermutation(order: seq<nat>, n: nat) {
    && |order| == n
    && AllBelow(order, n)
    && (forall x: nat :: x in order <==> x < n)
    && (forall p, q :: 0 <= p < q < |order| ==> order[p] != order[q])
  }

  /** Inserts index i in front of the first entry whose key is strictly larger. */
  function Insert(order: seq<nat>, i: nat, keys: seq<real>): (r: seq<nat>)
    requires i < |keys| && AllBelow(order, |keys|)
    ensures |r| == |order| + 1 && AllBelow(r, |keys|)
    ensures multiset(r) == multiset(order) + multiset{i}
  {
    if |order| == 0 then [i]
    else if keys[order[0]] > keys[i] then [i] + order
    else
      assert order == [order[0]] + order[1..];
      [order[0]] + Insert(order[1..], i, keys)
  }

  /** The indices 0 .. n-1 stably sorted by their keys. */
  function StableOrder(keys: seq<real>, n: nat): (r: seq<nat>)
    requires n <= |keys|
    ensures |r| == n && AllBelow(r, n)
    ensures forall x: nat :: x in r <==> x < n
  {
    if n == 0 then []
    else
      var prev := StableOrder(keys, n - 1);
      StableOrderStep(prev, keys, n);
      Insert(prev, n - 1, keys)
  }

  /** The inserted list holds the old entries and the new one, and nothing
      else; in particular it stays below any bound the old entries and i are
      below. */
  lemma InsertMembers(order: seq<nat>, i: nat, keys: seq<real>, n: nat)
    requires i < n <= |keys| && AllBelow(order, n)
    ensures forall x: nat :: x in Insert(order, i, keys) <==> x in order || x == i
    ensures AllBelow(Insert(order, i, keys), n)
  {
    var r := Insert(order, i, keys);
    forall x: nat
      ensures x in r <==> x in order || x == i
    {
      assert x in r <==> x in multiset(r);
      assert x in order <==> x in multiset(order);
    }
    forall p | 0 <= p < |r|
      ensures r[p] < n
    {
      assert r[p] in r;
    }
  }

  /** One step of StableOrder keeps its bounds and adds exactly n - 1. */
  lemma StableOrderStep(prev: seq<nat>, keys: seq<real>, n: nat)
    requires 0 < n <= |keys| && AllBelow(prev, n - 1)
    ensures AllBelow(prev, |keys|)
    ensures AllBelow(Insert(prev, n - 1, keys), n)
    ensures forall x: nat :: x in Insert(prev, n - 1, keys) <==> x in prev || x == n - 1
  {
    assert AllBelow(prev, n);
    InsertMembers(prev, n - 1, keys, n);
  }

  /** Position of x in s (its first occurrence). */
  function IndexOf(s: seq<nat>, x: nat): (p: nat)
    requires x in s
    ensures p < |s| && s[p] == x
    ensures forall q :: 0 <= q < p ==> s[q] != x
  {
    if s[0] == x then 0 else 1 + IndexOf(s[1..], x)
  }

  /** The 1-based rank of each of 0 .. n-1: one more than its position in order. */
  function Ranks(order: seq<nat>, n: nat): (r: seq<nat>)
    requires forall x: nat :: x < n ==> x in order
    ensures |r| == n
    ensures forall i :: 0 <= i < n ==> 1 <= r[i] <= |order| && order[r[i] - 1] == i
  {
    seq(n, i requires 0 <= i < n => IndexOf(order, i) + 1)
  }

  /** One line of the final ranking. */
  datatype RankingEntry = RankingEntry(alt: nat, q: real, qRank: nat, s: real, sRank: nat, r: real, rRank: nat)

  /** The alternatives of a ranking, in its order. */
  function Alts(rk: seq<RankingEntry>): (r: seq<nat>)
    ensures |r| == |rk| && forall p :: 0 <= p < |rk| ==> r[p] == rk[p].alt
  {
    seq(|rk|, p requires 0 <= p < |rk| => rk[p].alt)
  }

  /** The final ranking: the alternatives in stable Q order, each with its Q, S
      and R values and its rank by each of them. */
  function RankingOf(S: seq<real>, R: seq<real>, Q: seq<real>): (rk: seq<RankingEntry>)
    requires |S| == |Q| && |R| == |Q|
    ensures |rk| == |Q|
  {
    var n := |Q|;
    var byQ := StableOrder(Q, n);
    StableOrderIsPermutation(Q, n);
    StableOrderIsPermutation(S, n);
    StableOrderIsPermutation(R, n);
    Listing(byQ, S, R, Q, Ranks(byQ, n), Ranks(StableOrder(S, n), n), Ranks(StableOrder(R, n), n))
  }

  /** The entries for the alternatives of order, in that order, with their
      values and their ranks read from tables indexed by alternative. */
  function Listing(order: seq<nat>, S: seq<real>, R: seq<real>, Q: seq<real>, qRanks: seq<nat>, sRanks: seq<nat>, rRanks: seq<nat>)
    : (rk: seq<RankingEntry>)
    requires |S| == |Q| && |R| == |Q| && AllBelow(order, |Q|)
    requires |qRanks| == |Q| && |sRanks| == |Q| && |rRanks| == |Q|
    ensures |rk| == |order| && forall p :: 0 <= p < |order| ==> rk[p].alt == order[p]
  {
    seq(|order|, p requires 0 <= p < |order| =>
      var a := order[p];
      RankingEntry(a, Q[a], qRanks[a], S[a], sRanks[a], R[a], rRanks[a]))
  }

  // ---------------------------------------------------------------------------
  // The page's procedure

  /** attachRank: writes position + 1 into the rank slot of every listed
      alternative. */
  method AttachRank(order: seq<nat>, ranks: array<nat>)
    requires IsPermutation(order, ranks.Length)
    modifies ranks
    ensures ranks[..] == Ranks(order, ranks.Length)
  {
    var p := 0;
    while p < |order|
      invariant 0 <= p <= |order|
      invariant forall q :: 0 <= q < p ==> ranks[order[q]] == q + 1
    {
      ranks[order[p]] := p + 1;
      p := p + 1;
    }
    forall i | 0 <= i < ranks.Length
      ensures ranks[i] == Ranks(order, ranks.Length)[i]
    {
      var q := IndexOf(order, i);
      assert ranks[order[q]] == q + 1;
    }
  }

  /** The ranking memo: sorts by Q, S and R, attaches the three ranks and lists
      the alternatives in Q order. */
  method ComputeRanking(S: seq<real>, R: seq<real>, Q: seq<real>) returns (ranking: seq<RankingEntry>)
    requires |S| == |Q| && |R| == |Q|
    ensures ranking == RankingOf(S, R, Q)
  {
    var n := |Q|;
    var byQ := StableOrder(Q, n);
    var byS := StableOrder(S, n);
    var byR := StableOrder(R, n);
    StableOrderIsPermutation(Q, n);
    StableOrderIsPermutation(S, n);
    StableOrderIsPermutation(R, n);
    var qRanks := new nat[n];
    var sRanks := new nat[n];
    var rRanks := new nat[n];
    AttachRank(byQ, qRanks);
    var qr := qRanks[..];
    AttachRank(byS, sRanks);
    var sr := sRanks[..];
    AttachRank(byR, rRanks);
    var rr := rRanks[..];
    ranking := ListEntries(byQ, S, R, Q, qr, sr, rr);
  }

  /** Lists the entries of the alternatives in the given order, each with its
      values and its three ranks. */
  method ListEntries(order: seq<nat>, S: seq<real>, R: seq<real>, Q: seq<real>, qRanks: seq<nat>, sRanks: seq<nat>, rRanks: seq<nat>)
    returns (ranking: seq<RankingEntry>)
    requires |S| == |Q| && |R| == |Q| && AllBelow(order, |Q|)
    requires |qRanks| == |Q| && |sRanks| == |Q| && |rRanks| == |Q|
    ensures ranking == Listing(order, S, R, Q, qRanks, sRanks, rRanks)
  {
    ranking := [];
    var p := 0;
    while p < |order|
      invariant 0 <= p <= |order|
      invariant |ranking| == p
      invariant forall p' :: 0 <= p' < p ==> ranking[p'] == Listing(order, S, R, Q, qRanks, sRanks, rRanks)[p']
    {
      var a := order[p];
      ranking := ranking + [RankingEntry(a, Q[a], qRanks[a], S[a], sRanks[a], R[a], rRanks[a])];
      p := p + 1;
    }
  }

  // ---------------------------------------------------------------------------
  // Properties

  lemma PrecedesIsStrict(keys: seq<real>, i: nat, k: nat)
    requires i < |keys| && k < |keys|
    ensures !(Precedes(keys, i, k) && Precedes(keys, k, i))
    ensures i != k ==> Precedes(keys, i, k) || Precedes(keys, k, i)
  {
  }

  /** Inserting an index larger than every listed index keeps the list sorted. */
  lemma {:induction false} InsertSorted(order: seq<nat>, i: nat, keys: seq<real>)
    requires i < |keys| && AllBelow(order, i)
    requires SortedBy(keys, order)
    ensures SortedBy(keys, Insert(order, i, keys))
  {
    if |order| == 0 {
    } else if keys[order[0]] > keys[i] {
      forall q | 0 <= q < |order|
        ensures Precedes(keys, i, order[q])
      {
        if q > 0 {
          assert Precedes(keys, order[0], order[q]);
        }
      }
      SortedCons(keys, i, order);
    } else {
      var rest := order[1..];
      assert SortedBy(keys, rest) by {
        forall p, q | 0 <= p < q < |rest|
          ensures Precedes(keys, rest[p], rest[q])
        {
          assert rest[p] == order[p + 1] && rest[q] == order[q + 1];
        }
      }
      InsertSorted(rest, i, keys);
      var t := Insert(rest, i, keys);
      forall q | 0 <= q < |t|
        ensures Precedes(keys, order[0], t[q])
      {
        assert t[q] in multiset(t);
        if t[q] != i {
          assert t[q] in multiset(rest);
          var p :| 0 <= p < |rest| && rest[p] == t[q];
          assert Precedes(keys, order[0], order[p + 1]);
        }
      }
      SortedCons(keys, order[0], t);
    }
  }

  /** An element that precedes every entry of a sorted list may go in front. */
  lemma SortedCons(keys: seq<real>, x: nat, t: seq<nat>)
    requires x < |keys| && AllBelow(t, |keys|) && SortedBy(keys, t)
    requires forall q :: 0 <= q < |t| ==> Precedes(keys, x, t[q])
    ensures AllBelow([x] + t, |keys|) && SortedBy(keys, [x] + t)
  {
    var r := [x] + t;
    forall p, q | 0 <= p < q < |r|
      ensures Precedes(keys, r[p], r[q])
    {
      assert r[q] == t[q - 1];
      if p > 0 {
        assert r[p] == t[p - 1];
      }
    }
  }

  /** The stable order is sorted by Precedes and lists each index exactly once. */
  lemma {:induction false} StableOrderSpec(keys: seq<real>, n: nat)
    requires n <= |keys|
    ensures SortedBy(keys, StableOrder(keys, n))
    ensures IsPermutation(StableOrder(keys, n), n)
  {
    StableOrderSorted(keys, n);
    SortedDistinct(keys, StableOrder(keys, n));
  }

  lemma {:induction false} StableOrderSorted(keys: seq<real>, n: nat)
    requires n <= |keys|
    ensures SortedBy(keys, StableOrder(keys, n))
  {
    if n > 0 {
      var prev := StableOrder(keys, n - 1);
      StableOrderSorted(keys, n - 1);
      InsertSorted(prev, n - 1, keys);
      assert StableOrder(keys, n) == Insert(prev, n - 1, keys);
    }
  }

  /** A list sorted by Precedes has no repeated entry. */
  lemma SortedDistinct(keys: seq<real>, order: seq<nat>)
    requires AllBelow(order, |keys|) && SortedBy(keys, order)
    ensures forall p, q :: 0 <= p < q < |order| ==> order[p] != order[q]
  {
    forall p, q | 0 <= p < q < |order|
      ensures order[p] != order[q]
    {
      PrecedesIsStrict(keys, order[p], order[q]);
    }
  }

  /** The stable order is a permutation of 0 .. n-1. */
  lemma StableOrderIsPermutation(keys: seq<real>, n: nat)
    requires n <= |keys|
    ensures IsPermutation(StableOrder(keys, n), n)
  {
    StableOrderSpec(keys, n);
  }

  /** Appending an index whose key is not below any listed key puts it last. */
  lemma {:induction false} InsertAtEnd(order: seq<nat>, i: nat, keys: seq<real>)
    requires i < |keys| && AllBelow(order, |keys|)
    requires forall p :: 0 <= p < |order| ==> keys[order[p]] <= keys[i]
    ensures Insert(order, i, keys) == order + [i]
  {
    if |order| > 0 {
      InsertAtEnd(order[1..], i, keys);
      assert [order[0]] + (order[1..] + [i]) == order + [i];
    }
  }

  /** Keys that are already in ascending order are left in place. */
  lemma {:induction false} StableOrderOfSorted(keys: seq<real>, n: nat)
    requires n <= |keys|
    requires forall i, k :: 0 <= i < k < n ==> keys[i] <= keys[k]
    ensures StableOrder(keys, n) == Identity(n)
  {
    if n > 0 {
      StableOrderOfSorted(keys, n - 1);
      InsertLargest(StableOrder(keys, n - 1), keys, n);
    }
  }

  /** Inserting n - 1 into the identity order of a sorted prefix gives the
      identity order. */
  lemma InsertLargest(prev: seq<nat>, keys: seq<real>, n: nat)
    requires 0 < n <= |keys| && prev == Identity(n - 1)
    requires forall i, k :: 0 <= i < k < n ==> keys[i] <= keys[k]
    ensures AllBelow(prev, |keys|)
    ensures Insert(prev, n - 1, keys) == Identity(n)
  {
    forall p | 0 <= p < |prev|
      ensures keys[prev[p]] <= keys[n - 1]
    {
      assert prev[p] == p;
    }
    InsertAtEnd(prev, n - 1, keys);
    IdentitySnoc(n);
  }

  /** Identity(n) extends Identity(n - 1) by n - 1. */
  lemma IdentitySnoc(n: nat)
    requires n > 0
    ensures Identity(n) == Identity(n - 1) + [n - 1]
  {
    var ext := Identity(n - 1) + [n - 1];
    forall p | 0 <= p < n
      ensures ext[p] == Identity(n)[p]
    {
      if p < n - 1 {
        assert ext[p] == Identity(n - 1)[p];
      }
    }
    assert |ext| == |Identity(n)|;
  }

  /** The indices 0 .. n-1 in ascending order. */
  function Identity(n: nat): (r: seq<nat>)
    ensures |r| == n && forall p :: 0 <= p < n ==> r[p] == p
  {
    seq(n, i requires 0 <= i < n => i)
  }

  /** Ranks from the stable order are 1 .. n, follow Precedes, and rank 1 goes
      to the alternative with the smallest key (the first one among ties). */
  lemma RanksFollowKeys(keys: seq<real>, n: nat, i: nat, k: nat)
    requires n <= |keys| && i < n && k < n
    ensures StableOrder(keys, n)[Ranks(StableOrder(keys, n), n)[i] - 1] == i
    ensures Ranks(StableOrder(keys, n), n)[i] < Ranks(StableOrder(keys, n), n)[k] <==> Precedes(keys, i, k)
    ensures Ranks(StableOrder(keys, n), n)[i] == 1 <==>
      forall k' :: 0 <= k' < n && k' != i ==> Precedes(keys, i, k')
  {
    var order := StableOrder(keys, n);
    StableOrderSpec(keys, n);
    RanksOfSorted(keys, order, n, i, k);
    FirstRankOfSorted(keys, order, n, i);
  }

  /** In a sorted permutation, a smaller rank means an earlier alternative. */
  lemma RanksOfSorted(keys: seq<real>, order: seq<nat>, n: nat, i: nat, k: nat)
    requires n <= |keys| && i < n && k < n
    requires IsPermutation(order, n) && AllBelow(order, |keys|) && SortedBy(keys, order)
    ensures Ranks(order, n)[i] < Ranks(order, n)[k] <==> Precedes(keys, i, k)
  {
    var rk := Ranks(order, n);
    var p, q := rk[i] - 1, rk[k] - 1;
    PrecedesIsStrict(keys, i, k);
    if p < q {
      assert Precedes(keys, order[p], order[q]);
    } else if q < p {
      assert Precedes(keys, order[q], order[p]);
    }
  }

  /** In a sorted permutation, rank 1 goes to the alternative preceding all
      others. */
  lemma FirstRankOfSorted(keys: seq<real>, order: seq<nat>, n: nat, i: nat)
    requires n <= |keys| && i < n
    requires IsPermutation(order, n) && AllBelow(order, |keys|) && SortedBy(keys, order)
    ensures Ranks(order, n)[i] == 1 <==> forall k' :: 0 <= k' < n && k' != i ==> Precedes(keys, i, k')
  {
    var rk := Ranks(order, n);
    if rk[i] == 1 {
      forall k' | 0 <= k' < n && k' != i
        ensures Precedes(keys, i, k')
      {
        assert order[rk[k'] - 1] == k';
        assert Precedes(keys, order[0], order[rk[k'] - 1]);
      }
    } else {
      var j := order[0];
      assert j in order;
      assert Precedes(keys, order[0], order[rk[i] - 1]);
      PrecedesIsStrict(keys, j, i);
    }
  }

  /** The final ranking lists every alternative once, in ascending Q with ties
      in index order; each entry carries that alternative's values, its position
      as Q rank, and its ranks by S and by R. */
  lemma RankingProperties(S: seq<real>, R: seq<real>, Q: seq<real>)
    requires |S| == |Q| && |R| == |Q|
    ensures IsPermutation(Alts(RankingOf(S, R, Q)), |Q|)
    ensures forall p, p' :: 0 <= p < p' < |Q| ==> RankingOf(S, R, Q)[p].q <= RankingOf(S, R, Q)[p'].q
    ensures forall p :: 0 <= p < |Q| ==>
      var e := RankingOf(S, R, Q)[p];
      e.alt < |Q| && e.q == Q[e.alt] && e.s == S[e.alt] && e.r == R[e.alt] && e.qRank == p + 1
      && 1 <= e.sRank <= |Q| && 1 <= e.rRank <= |Q|
    ensures forall p, p' :: 0 <= p < |Q| && 0 <= p' < |Q| ==>
      var e, e' := RankingOf(S, R, Q)[p], RankingOf(S, R, Q)[p'];
      e.alt < |Q| && e'.alt < |Q|
      && (e.sRank < e'.sRank <==> Precedes(S, e.alt, e'.alt))
      && (e.rRank < e'.rRank <==> Precedes(R, e.alt, e'.alt))
      && (p != p' ==> e.sRank != e'.sRank && e.rRank != e'.rRank)
  {
    var n := |Q|;
    var rk := RankingOf(S, R, Q);
    var byQ := StableOrder(Q, n);
    StableOrderSpec(Q, n);
    assert Alts(rk) == byQ;
    forall p, p' | 0 <= p < p' < n
      ensures rk[p].q <= rk[p'].q
    {
      assert Precedes(Q, byQ[p], byQ[p']);
    }
    forall p | 0 <= p < n
      ensures rk[p].qRank == p + 1
    {
      RankAtPosition(byQ, n, p);
    }
    forall p, p' | 0 <= p < n && 0 <= p' < n
      ensures rk[p].alt < n && rk[p'].alt < n
      ensures rk[p].sRank < rk[p'].sRank <==> Precedes(S, rk[p].alt, rk[p'].alt)
      ensures rk[p].rRank < rk[p'].rRank <==> Precedes(R, rk[p].alt, rk[p'].alt)
      ensures p != p' ==> rk[p].sRank != rk[p'].sRank && rk[p].rRank != rk[p'].rRank
    {
      EntryRanks(S, R, Q, p, p');
    }
  }

  /** The S and R ranks of two entries follow their S and R values, and differ
      for different entries. */
  lemma EntryRanks(S: seq<real>, R: seq<real>, Q: seq<real>, p: nat, p': nat)
    requires |S| == |Q| && |R| == |Q| && p < |Q| && p' < |Q|
    ensures var e, e' := RankingOf(S, R, Q)[p], RankingOf(S, R, Q)[p'];
      e.alt < |Q| && e'.alt < |Q|
      && (e.sRank < e'.sRank <==> Precedes(S, e.alt, e'.alt))
      && (e.rRank < e'.rRank <==> Precedes(R, e.alt, e'.alt))
      && (p != p' ==> e.sRank != e'.sRank && e.rRank != e'.rRank)
  {
    var n := |Q|;
    var byQ := StableOrder(Q, n);
    StableOrderIsPermutation(Q, n);
    StableOrderIsPermutation(S, n);
    StableOrderIsPermutation(R, n);
    EntryFields(S, R, Q, p, StableOrder(S, n), StableOrder(R, n));
    EntryFields(S, R, Q, p', StableOrder(S, n), StableOrder(R, n));
    assert p != p' ==> byQ[p] != byQ[p'];
    RankPair(S, n, byQ[p], byQ[p']);
    RankPair(R, n, byQ[p], byQ[p']);
  }

  /** Entry p of the ranking is alternative byQ[p] with its S and R ranks. */
  lemma EntryFields(S: seq<real>, R: seq<real>, Q: seq<real>, p: nat, byS: seq<nat>, byR: seq<nat>)
    requires |S| == |Q| && |R| == |Q| && p < |Q|
    requires byS == StableOrder(S, |Q|) && IsPermutation(byS, |Q|)
    requires byR == StableOrder(R, |Q|) && IsPermutation(byR, |Q|)
    ensures StableOrder(Q, |Q|)[p] < |Q|
    ensures var e, a := RankingOf(S, R, Q)[p], StableOrder(Q, |Q|)[p];
      && e.alt == a
      && e.sRank == Ranks(byS, |Q|)[a]
      && e.rRank == Ranks(byR, |Q|)[a]
  {
  }

  /** Two ranks from one stable order compare as their alternatives precede,
      and differ for different alternatives. */
  lemma RankPair(keys: seq<real>, n: nat, i: nat, k: nat)
    requires n <= |keys| && i < n && k < n
    ensures Ranks(StableOrder(keys, n), n)[i] < Ranks(StableOrder(keys, n), n)[k] <==> Precedes(keys, i, k)
    ensures i != k ==> Ranks(StableOrder(keys, n), n)[i] != Ranks(StableOrder(keys, n), n)[k]
  {
    RanksFollowKeys(keys, n, i, k);
    RanksFollowKeys(keys, n, k, i);
  }

  /** In a permutation, the alternative at position p has rank p + 1. */
  lemma RankAtPosition(order: seq<nat>, n: nat, p: nat)
    requires IsPermutation(order, n) && p < n
    ensures Ranks(order, n)[order[p]] == p + 1
  {
    var r := Ranks(order, n)[order[p]];
    assert order[r - 1] == order[p];
  }

  /** An entry's S rank is 1 exactly when its alternative has the smallest S
      (the first such alternative among ties); likewise for R. */
  lemma FirstRankMeansMinimum(S: seq<real>, R: seq<real>, Q: seq<real>, p: nat)
    requires |S| == |Q| && |R| == |Q| && p < |Q|
    ensures var e := RankingOf(S, R, Q)[p];
      e.alt < |Q| &&
      (e.sRank == 1 <==> forall k :: 0 <= k < |Q| && k != e.alt ==> Precedes(S, e.alt, k))
    ensures var e := RankingOf(S, R, Q)[p];
      e.alt < |Q| &&
      (e.rRank == 1 <==> forall k :: 0 <= k < |Q| && k != e.alt ==> Precedes(R, e.alt, k))
  {
    var a := RankingOf(S, R, Q)[p].alt;
    RanksFollowKeys(S, |Q|, a, a);
    RanksFollowKeys(R, |Q|, a, a);
  }
}
