# Fuzzy VIKOR engine — a Dafny model

This project models the decision engine of a single-page Fuzzy VIKOR
calculator (`src/App.jsx`). A panel of `ne` experts rates `nc` criteria and
`na` alternatives with seven-term linguistic labels. The engine turns the
labels into triangular fuzzy numbers (TFNs) and averages them over the
experts. It then finds the fuzzy ideal and anti-ideal of every criterion and
normalises every rating against them. The normalised ratings are weighted by
the aggregated criterion weights. From them the engine computes, for each
alternative, the group utility S, the individual regret R and the compromise
index Q. Finally it ranks the alternatives by Q, S and R and checks the two
VIKOR compromise conditions. The model also covers the editing operations
that keep the judgment tables in shape: resizing, setting one label and
toggling a criterion between benefit and cost.

Modules, one file each, in pipeline order:

- `Fuzzy` (`fuzzy.dfy`): the `Tri` datatype and the TFN helpers.
- `Scales` (`scales.dfy`): the importance and performance label tables.
- `Judgments` (`judgments.dfy`): the experts' tables, resizing and cell edits.
- `Aggregation` (`aggregation.dfy`): the expert mean of the weights and ratings.
- `Reference` (`reference.dfy`): the ideal and anti-ideal.
- `Normalization` (`normalization.dfy`): normalisation and weighting.
- `Utility` (`utility.dfy`): S and R.
- `Compromise` (`compromise.dfy`): Q.
- `Ranking` (`ranking.dfy`): the stable sorts and the ranks.
- `Acceptance` (`acceptance.dfy`): the compromise conditions.
- `Pipeline` (`pipeline.dfy`): the whole chain and its end-to-end properties.

Every stage that the page computes with loops is a `method` with the page's
loops. Each such method is proved equal to a pure specification function of
the same stage (`ComputeIdeal` and `IdealF`, for example). The properties are
lemmas about those functions.

How the page's JavaScript maps to the model:

- **Missing cells.** A hole, `undefined` or `null` in a judgment table is a
  `None` cell, and a short row simply has no cell there. The aggregation
  reads a missing weight as `M` and a missing rating as `F`.
- **Benefit flags.** A criterion flag is an `Option<bool>`. The calculation
  tests the flag for truthiness, so a missing flag counts as cost there. The
  resize treats only `undefined` as missing and fills in `true` (benefit).
- **Running extrema.** The page starts its running maxima and minima at ±∞.
  The model uses a `seen` flag that is false until the first value has been
  read.
- **Sorting.** `Array.prototype.sort` is stable. The model gives it as a
  stable insertion order of the alternative indices (`Ranking.StableOrder`),
  proved sorted by key, with ties in index order, and proved to be a
  permutation.
- **Ranks.** `attachRank` writes each rank into objects that all three sorted
  lists share. So `byS.find(...).Srank` reads the S rank of the same
  alternative. The model stores ranks in one array per key, indexed by
  alternative.

Where the code departs from textbook Fuzzy VIKOR, the model follows the code:

- `divTriScalar` does not guard its divisor. The model therefore requires at
  least one expert (`ne >= 1`); with none the page produces NaN.
- The ideal is always the componentwise maximum and the anti-ideal always
  the minimum, whatever the criterion type. Only the normalisation formula
  looks at the type. `Normalization.CostIsMirroredBenefit` proves that the
  cost formula gives the benefit result with its lower and upper components
  swapped. A cost criterion therefore still rewards high ratings.
- R is the largest defuzzified weighted value of the row. No fuzzy R is
  formed.
- Defuzzification is the simple mean `(l + m + u) / 3`.
- A rating equal to the ideal is not at distance zero. Fuzzy subtraction
  of a triple from itself, `(l − u, 0, u − l)`, keeps the spread, and the
  clamp only removes its negative part. So an alternative that is best on
  every criterion still gets S > 0.
  `Normalization.IdealRatingKeepsSpread` proves that the normalised distance
  then has mode 0 but a positive defuzzified value.
  `Normalization.VeryGoodAtIdeal` gives an instance: a "Very Good" rating,
  with ideal "Very Good" and anti-ideal "Medium Poor", normalises to
  (0, 0, 0.25).
- Q is 0 for every alternative when all S values are equal. Otherwise the R
  term is 0 when all R values are equal.

## Model

| member | source | states |
|---|---|---|
| Fuzzy.AddTri | src/App.jsx:28 | componentwise sum; Fuzzy.DefuzzLinear proves that defuzzification is additive over it |
| Fuzzy.SubTri | src/App.jsx:29 | lower minus upper, mode minus mode, upper minus lower: the spread of the difference is the sum of the spreads, and ordered operands give an ordered difference |
| Fuzzy.MulTriScalar | src/App.jsx:30 | componentwise scaling; Fuzzy.DivTriScalar undoes it and Fuzzy.SumOfConstant shows a sum of n equal triples is the triple scaled by n |
| Fuzzy.MulTri | src/App.jsx:32 | elementwise product; non-negative operands give a non-negative product |
| Fuzzy.DivTri | src/App.jsx:33-37 | each component is the dividend's over the opposite divisor component: multiplying back by a non-zero divisor restores the dividend, and a zero divisor gives 0 |
| Fuzzy.Defuzz | src/App.jsx:42 | the simple mean lies between the lower and upper bounds of an ordered triple |
| Fuzzy.DivTriScalar | src/App.jsx:31 | for a non-zero divisor, multiplying the quotient back by the divisor restores the triple |
| Fuzzy.SafeDiv | src/App.jsx:38-41 | a zero divisor yields 0; otherwise the result times the divisor is the dividend |
| Fuzzy.SafeDivNegBoth | src/App.jsx:38-41 | negating dividend and divisor together leaves the safe quotient unchanged |
| Fuzzy.DefuzzLinear | src/App.jsx:42 | defuzzification is additive and ignores a swap of lower and upper |
| Fuzzy.DefuzzOfSum | src/App.jsx:28-42 | the defuzzified fuzzy sum equals the sum of the defuzzified terms |
| Fuzzy.TriMax | src/App.jsx:43 | the componentwise maximum dominates both arguments and is dominated by every common upper bound |
| Fuzzy.TriMin | src/App.jsx:44 | the componentwise minimum is dominated by both arguments and dominates every common lower bound |
| Fuzzy.SumOfUnit | src/App.jsx:28 | a sum of n ordered unit TFNs is ordered, non-negative and at most n |
| Fuzzy.TermBelowSum | src/App.jsx:28-42 | each non-negative term's defuzzified value is between 0 and the defuzzified sum |
| Scales.ImportanceTri | src/App.jsx:4-12 | every importance label maps to an ordered TFN inside [0,1] |
| Scales.PerformanceTri | src/App.jsx:14-22 | every performance label maps to an ordered TFN inside [0,1] |
| Scales.ImportanceScaleMonotone | src/App.jsx:4-12 | a higher importance label dominates a lower one, and neighbouring labels overlap |
| Scales.PerformanceScaleMonotone | src/App.jsx:14-22 | a higher performance label dominates a lower one, and neighbouring labels overlap |
| Scales.ScalesAgree | src/App.jsx:4-22 | the two tables hold the same TFN at each level |
| Judgments.ResizeCriteriaWeights | src/App.jsx:82-90 | the result is ne × nc; a cell inside the old table keeps its label, any other cell becomes M |
| Judgments.ResizeAltEvaluations | src/App.jsx:91-104 | the result is ne × na × nc; a cell inside the old table keeps its label, any other cell becomes F |
| Judgments.ResizeCriteriaTypes | src/App.jsx:105-109 | the result has nc flags; a set flag is kept and an unset one becomes benefit |
| Judgments.ResizeMatrixes | src/App.jsx:81-110 | all three tables take the new shape; every surviving judgment and flag is kept and new cells get the defaults |
| Judgments.SetCriteriaTerm | src/App.jsx:119-126 | the chosen cell holds the new label and every other cell is unchanged, also when the row or index is past the end |
| Judgments.SetAltTerm | src/App.jsx:128-136 | the chosen cell holds the new label and every other cell is unchanged, also when the block, row or index is past the end |
| Judgments.ToggleCriteriaType | src/App.jsx:138-144 | the benefit flag of the criterion is negated (an unset flag becomes benefit) and every other flag is unchanged |
| Aggregation.Mean | src/App.jsx:160 | the mean times the number of experts is the fuzzy sum |
| Aggregation.ComputeAggregatedCriteria | src/App.jsx:147-163 | the page's loops compute the expert mean of each criterion's weight TFNs, reading a missing label as M |
| Aggregation.ComputeAggregatedAlts | src/App.jsx:166-187 | the page's loops compute the expert mean of each rating's TFNs, reading a missing label as F |
| Aggregation.MeanOfConstant | src/App.jsx:158-160 | the mean of equal TFNs is that TFN |
| Aggregation.MeanOfUnit | src/App.jsx:147-163 | the mean of ordered unit TFNs is an ordered unit TFN |
| Aggregation.ScaledIntoUnit | src/App.jsx:147-163 | an ordered non-negative sum of n unit TFNs, divided by n, is an ordered unit TFN |
| Aggregation.UnanimousWeight | src/App.jsx:150-161 | if all experts give criterion j the same label, its aggregated weight is that label's TFN |
| Aggregation.UnanimousRating | src/App.jsx:169-185 | if all experts give the same label to a rating, its aggregate is that label's TFN |
| Aggregation.MissingWeightsReadAsM | src/App.jsx:153-156 | a criterion with no weight labels aggregates to (0.3, 0.5, 0.7) |
| Aggregation.MissingRatingsReadAsF | src/App.jsx:174-178 | a rating with no labels aggregates to (0.3, 0.5, 0.7) |
| Aggregation.AggregatedCriteriaInUnit | src/App.jsx:147-163 | every aggregated weight is an ordered TFN inside [0,1] |
| Aggregation.AggregatedAltsInUnit | src/App.jsx:166-187 | every aggregated rating is an ordered TFN inside [0,1] |
| Reference.ComputeIdeal | src/App.jsx:190-211 | the page's loop yields, per criterion, the componentwise maximum over the alternatives, or Zero when there are none |
| Reference.ComputeAntiIdeal | src/App.jsx:213-233 | the page's loop yields, per criterion, the componentwise minimum over the alternatives, or Zero when there are none |
| Reference.ColumnMaxBounds | src/App.jsx:201-206 | the running maximum dominates every row's entry, and each component is attained by some row |
| Reference.ColumnMinBounds | src/App.jsx:223-228 | the running minimum is dominated by every row's entry, and each component is attained by some row |
| Reference.ReferenceBounds | src/App.jsx:190-233 | the ideal dominates every rating, which dominates the anti-ideal; each component is some alternative's; both are Zero without alternatives |
| Reference.ExtremaOfConstant | src/App.jsx:190-233 | a column where all alternatives are equal has that value as both ideal and anti-ideal |
| Normalization.Clamp0 | src/App.jsx:262-264 | the clamped triple is the least non-negative triple that dominates the input, component by component |
| Normalization.NormalizeCell | src/App.jsx:246-264 | a normalised rating is non-negative for benefit and cost criteria alike |
| Normalization.ComputeNormalized | src/App.jsx:236-270 | the page's loops give the benefit or cost normalisation of every rating, clamped at zero |
| Normalization.ComputeWeighted | src/App.jsx:273-287 | the page's loops multiply every normalised rating elementwise by its criterion's weight |
| Normalization.NormalizedNonNeg | src/App.jsx:262-264 | every component of the normalised matrix is non-negative |
| Normalization.ZeroDivisorGivesZero | src/App.jsx:33-41 | a zero component of f* − f− gives a zero component of the normalised value instead of a failure |
| Normalization.CostIsMirroredBenefit | src/App.jsx:251-259 | the cost formula gives the benefit result with its lower and upper components swapped, so the defuzzified value is the same |
| Normalization.IdenticalColumnIsZero | src/App.jsx:246-258 | a rating equal to both the ideal and the anti-ideal normalises to Zero |
| Normalization.IdealRatingKeepsSpread | src/App.jsx:246-264 | a rating equal to an ideal with a spread, lying above the anti-ideal, normalises to mode 0 but a positive defuzzified value, for benefit and cost alike |
| Normalization.VeryGoodAtIdeal | src/App.jsx:246-264 | with the page's labels, a "Very Good" rating at ideal "Very Good" and anti-ideal "Medium Poor" normalises to (0, 0, 0.25) |
| Normalization.QuotientSign | src/App.jsx:38-41 | a safe quotient by a positive divisor has the sign of the dividend |
| Normalization.FractionInUnit | src/App.jsx:38-41 | a safe quotient of a non-negative part by a larger whole lies in [0,1] |
| Normalization.NormalizedModeInUnit | src/App.jsx:246-264 | for a rating between the anti-ideal and the ideal, the normalised mode lies in [0,1] |
| Normalization.WeightedNonNeg | src/App.jsx:273-287 | non-negative normalised values times non-negative weights stay non-negative |
| Utility.ComputeUtility | src/App.jsx:290-309 | the page's loop gives, per alternative, the fuzzy row sum, its defuzzified value and the largest defuzzified entry (0 for no criteria) |
| Utility.MaxDefuzzBounds | src/App.jsx:297-302 | the running maximum is at least every defuzzified entry and equals one of them |
| Utility.UtilityMeaning | src/App.jsx:294-307 | S is the sum of the defuzzified entries; R is the largest of them, attained, or 0 without criteria |
| Utility.RegretBelowUtility | src/App.jsx:294-307 | for a non-negative row, 0 ≤ R ≤ S |
| Compromise.Lowest | src/App.jsx:312-315 | Math.min over S or R; Compromise.LowestOfBounds and Compromise.ExtremaBounds prove it is at most every value and is one of them |
| Compromise.Highest | src/App.jsx:312-315 | Math.max over S or R; Compromise.HighestOfBounds and Compromise.ExtremaBounds prove it is at least every value and is one of them |
| Compromise.QValue | src/App.jsx:325-328 | the v-weighted sum of the rescaled S and R terms; Compromise.QValueMonotone proves it is in [0,1] and monotone in S and R |
| Compromise.QDefuzz | src/App.jsx:319-330 | one Q per alternative, all 0 when the S values do not spread; Compromise.QInUnit and Compromise.QRespectsDominance state its meaning |
| Compromise.LowestOfBounds | src/App.jsx:312 | the minimum is at most every value and is one of them |
| Compromise.HighestOfBounds | src/App.jsx:313 | the maximum is at least every value and is one of them |
| Compromise.ExtremaBounds | src/App.jsx:312-315 | every value lies between the minimum and the maximum |
| Compromise.RatioInUnit | src/App.jsx:326-327 | a value rescaled between a strictly smaller minimum and a maximum lies in [0,1], and the rescaling preserves and reflects order |
| Compromise.ConvexCombination | src/App.jsx:328 | the v-weighted combination of two values in [0,1] is in [0,1] and is monotone in both |
| Compromise.QInUnit | src/App.jsx:319-330 | equal S values give Q = 0; otherwise Q is the plain VIKOR formula (its S divisor is never 0); for v in [0,1] every Q is in [0,1] |
| Compromise.QRespectsDominance | src/App.jsx:319-330 | for v in [0,1], an alternative with S and R no larger than another's has no larger Q |
| Compromise.QValueMonotone | src/App.jsx:325-329 | between the extremes and for v in [0,1], one alternative's Q is in [0,1] and does not decrease when its S and R do not |
| Compromise.QAtVOne | src/App.jsx:319-330 | with v = 1, Q orders the alternatives exactly as S does |
| Compromise.QAtVZero | src/App.jsx:319-330 | with v = 0 and spread S values, Q orders the alternatives exactly as R does |
| Compromise.QZeroAtDoubleBest | src/App.jsx:319-330 | an alternative with both the least S and the least R has Q = 0 |
| Ranking.Insert | src/App.jsx:340-342 | inserting into the stable order adds exactly that index, as a multiset |
| Ranking.InsertMembers | src/App.jsx:340-342 | the inserted list holds the old indices and the new one, and nothing else |
| Ranking.StableOrder | src/App.jsx:340-342 | the sort lists exactly the indices 0 .. n−1 |
| Ranking.InsertSorted | src/App.jsx:340-342 | inserting an index larger than all listed ones keeps the list sorted by key, ties in index order |
| Ranking.StableOrderStep | src/App.jsx:340-342 | one insertion step keeps every index below the bound and adds exactly the new index |
| Ranking.SortedCons | src/App.jsx:340-342 | an index that precedes every entry of a sorted list can be put in front and the list stays sorted |
| Ranking.StableOrderSorted | src/App.jsx:340-342 | the sort result is sorted by key, with ties in index order |
| Ranking.SortedDistinct | src/App.jsx:340-342 | a list sorted by key with ties in index order repeats no index |
| Ranking.StableOrderSpec | src/App.jsx:340-342 | the sort result is sorted by key, with ties in index order, and is a permutation of 0 .. n−1 |
| Ranking.PrecedesIsStrict | src/App.jsx:340-342 | the sort order is asymmetric and total on distinct indices |
| Ranking.InsertAtEnd | src/App.jsx:373 | an index whose key is not below any listed key is placed last |
| Ranking.StableOrderOfSorted | src/App.jsx:373 | sorting keys that are already ascending changes nothing |
| Ranking.InsertLargest | src/App.jsx:373 | inserting the last index into the identity order of ascending keys gives the identity order |
| Ranking.IdentitySnoc | src/App.jsx:373 | the identity order on n indices is the one on n − 1 indices followed by n − 1 |
| Ranking.IndexOf | src/App.jsx:360 | the position found holds the sought alternative, and no earlier position does |
| Ranking.Ranks | src/App.jsx:345-349 | each rank is between 1 and n, and the rank minus one is the alternative's position in the sorted list |
| Ranking.AttachRank | src/App.jsx:345-349 | writing position + 1 for each listed alternative leaves exactly those ranks in the array |
| Ranking.RankAtPosition | src/App.jsx:345-349 | in a permutation, the alternative at position p receives rank p + 1 |
| Ranking.Listing | src/App.jsx:355-364 | the listing has one entry per listed alternative, for that alternative, in the same order |
| Ranking.ListEntries | src/App.jsx:355-364 | the loop builds the listing: each alternative of the order with its values and its Q, S and R ranks read by alternative |
| Ranking.ComputeRanking | src/App.jsx:333-365 | the page's procedure (three sorts, three rank tables, the listing in Q order) yields the ranking function |
| Ranking.RanksOfSorted | src/App.jsx:345-349 | in a sorted permutation, one rank is below another exactly when its alternative comes first in the sort order |
| Ranking.FirstRankOfSorted | src/App.jsx:345-349 | in a sorted permutation, rank 1 goes exactly to the alternative that precedes all others |
| Ranking.RanksFollowKeys | src/App.jsx:345-352 | one rank is below another exactly when its key is smaller (or equal with a smaller index); rank 1 goes to the alternative that precedes all others |
| Ranking.RankingOf | src/App.jsx:333-365 | the ranking in Q order with the Q, S and R ranks; Ranking.RankingProperties states its meaning |
| Ranking.RankingProperties | src/App.jsx:333-365 | the ranking lists every alternative once, in ascending Q; each entry carries its own values and Q rank = position + 1; of two entries, one has the smaller S rank (R rank) exactly when it comes first in the stable sort by S (by R), and distinct entries have distinct S and R ranks |
| Ranking.EntryFields | src/App.jsx:355-363 | the entry at position p is for the p-th alternative of the Q order and carries that alternative's S and R ranks |
| Ranking.RankPair | src/App.jsx:340-349 | of two alternatives, one has the smaller rank exactly when it precedes the other by key, and distinct alternatives have distinct ranks |
| Ranking.EntryRanks | src/App.jsx:355-363 | for any two entries of the ranking, the S and R ranks compare as the stable sorts by S and by R order their alternatives |
| Ranking.FirstRankMeansMinimum | src/App.jsx:360-362 | an S rank (or R rank) of 1 means the alternative has the least S (or R), and is the first such among ties |
| Acceptance.UpTo | src/App.jsx:386 | the filter keeps exactly the entries whose Q is at most the threshold |
| Acceptance.SortByQSpec | src/App.jsx:373 | the re-sort holds the same entries, in ascending Q |
| Acceptance.SortByQOfSorted | src/App.jsx:373 | re-sorting a ranking that is already in Q order returns it unchanged |
| Acceptance.FirstHasLeastQ | src/App.jsx:373-374 | the first entry after the re-sort is in the ranking and has the least Q |
| Acceptance.SortByQ | src/App.jsx:373 | the stable re-sort by Q; Acceptance.SortByQSpec states its meaning |
| Acceptance.CompromiseCheck | src/App.jsx:370-397 | the conditions are checked exactly when there are at least two alternatives, and then DQ is the threshold 1/(m−1) |
| Acceptance.AdvantageThreshold | src/App.jsx:372 | DQ is positive and DQ·(m−1) = 1 |
| Acceptance.Decide | src/App.jsx:372-396 | the two conditions and the set on a list in Q order; Acceptance.DecideSpec states its meaning |
| Acceptance.DecideSpec | src/App.jsx:372-396 | DQ > 0; the advantage is the Q gap between the first two entries; condition 1 holds exactly when the advantage reaches DQ; condition 2 holds exactly when the first entry has S rank 1 or R rank 1; the first entry is in the set and the check is ok; every member is within DQ of the first; the set is the first alone when both conditions hold, otherwise exactly the entries within DQ |
| Acceptance.CompromiseAccepts | src/App.jsx:370-397 | fewer than two alternatives: not ok and no set; otherwise ok, advantage ≥ 0, and the alternative with the least Q is in the set |
| Acceptance.CompromiseSet | src/App.jsx:379-387 | every member of the set is an entry of the ranking within DQ of the least Q; the set is the best alone when both conditions hold, otherwise exactly those entries |
| Pipeline.Evaluate | src/App.jsx:147-397 | the specification chain from judgments to verdict, every table of the right shape; Pipeline.MeasuresBounded and Pipeline.VerdictOnRanking state its meaning |
| Pipeline.RunVikor | src/App.jsx:147-397 | running the stage methods in the page's order yields exactly the tables of the specification chain |
| Pipeline.MeasuresBounded | src/App.jsx:290-330 | for any judgments, 0 ≤ R ≤ S for every alternative, and every Q is in [0,1] for v in [0,1] |
| Pipeline.ConstantColumns | src/App.jsx:166-187 | identical judgments for all alternatives give identical aggregated ratings in each column |
| Pipeline.ConstantColumnsWeighZero | src/App.jsx:190-287 | constant columns give a Zero normalised and weighted matrix |
| Pipeline.ZeroMatrixUtility | src/App.jsx:290-309 | an all-Zero weighted matrix gives S = R = 0 for every alternative |
| Pipeline.EqualUtilityQZero | src/App.jsx:319-322 | equal S values give Q = 0 for every alternative |
| Pipeline.IdenticalAlternativesTie | src/App.jsx:166-330 | when all alternatives are judged alike, S, R and Q are 0 for every one of them |
| Pipeline.VerdictOnSorted | src/App.jsx:370-397 | on a list in ascending Q the check is ok, the first entry is in the set, the advantage is the gap between the first two, condition 1 holds exactly when it reaches DQ, condition 2 exactly when the first entry has S rank or R rank 1, and every member is within DQ of the first |
| Pipeline.VerdictOnRanking | src/App.jsx:333-397 | on the page's ranking: with two or more alternatives the check is ok and the entry with Q rank 1 is in the set, with the advantage, condition 1 (advantage ≥ DQ) and condition 2 read from the first two entries; with fewer, not ok and no set |

## Left out

- The JSX rendering, the input widgets and the React state and memo
  machinery are not modelled. That includes `updateCounts`, which only
  stores the three counts and calls `resizeMatrixes`.
- Each stage is a function of its inputs. When the page recomputes a memo
  is not modelled, so neither is the missing `vValue` dependency of the Q
  memo (`src/App.jsx:330`), which can leave Q stale after the slider moves.
- The JSON deep copy in the cell edits is modelled as a value update. Object
  identity and aliasing are not modelled.
- The numbers are reals. IEEE rounding, infinities and NaN are not modelled,
  and neither are the `isFinite` / `Number.isNaN` guards that only matter
  for them (`src/App.jsx:39`, `207`, `229`, `262-264`, `282`, `320`). So the
  model requires at least one expert instead of reproducing the NaN that
  zero experts produce.
- The `|| [0, 0, 0]` fallbacks inside the stages are not modelled. The model
  passes tables of the exact shape between stages, so those fallbacks never
  fire.
- Labels are enumerations, so an unknown label string cannot occur. The
  select widgets offer only the table keys.
- `loadSample`, the initial state literals and `vite.config.js` are not
  part of this model.
- The display-time `ranking.sort` inside the JSX (`src/App.jsx:762`) is not
  modelled separately. It sorts a list that is already in Q order, which
  `Ranking.StableOrderOfSorted` shows changes nothing.
- The strategy weight v is a parameter. The slider limits it to [0,1], and
  the Q bounds are proved for that range.
- Pipeline.VerdictOnRanking: does not restate DQ·(m−1) = 1, because that
  fact is stated by Acceptance.CompromiseCheck for every ranking.
