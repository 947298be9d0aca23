/** The raw inputs of the engine: the experts' label matrices and the
    per-criterion benefit flags, with the cell-preserving resize and the
    single-cell edits that the page applies to them.

    A cell is `None` where the page's array has no label (an index past the end
    of a row, a hole left by an assignment past the end, or a null left by
    deep-cloning such a hole); all of these read as a missing label. A missing
    expert row is modelled as an empty row, which reads the same way. */
module Judgments {
  import opened Scales

  datatype Option<T> = None | Some(value: T)

  /** expert -> criterion -> importance label */
  type WeightMatrix = seq<seq<Option<Importance>>>

  /** expert -> alternative -> criterion -> performance label */
  type RatingTensor = seq<seq<seq<Option<Performance>>>>

  /** criterion -> benefit flag (true = benefit, false = cost) */
  type CriteriaTypes = seq<Option<bool>>

  function WeightCell(w: WeightMatrix, e: nat, j: nat): Option<Importance> {
    if e < |w| && j < |w[e]| then w[e][j] else None
  }

  function RatingCell(ev: RatingTensor, e: nat, a: nat, j: nat): Option<Performance> {
    if e < |ev| && a < |ev[e]| && j < |ev[e][a]| then ev[e][a][j] else None
  }

  function TypeCell(types: CriteriaTypes, j: nat): Option<bool> {
    if j < |types| then types[j] else None
  }

  /** The label the aggregation reads: the expert's label, or "M" when missing. */
  function ImportanceAt(w: WeightMatrix, e: nat, j: nat): Importance {
    match WeightCell(w, e, j)
    case Some(t) => t
    case None => M
  }

  /** The label the aggregation reads: the expert's label, or "F" when missing. */
  function PerformanceAt(ev: RatingTensor, e: nat, a: nat, j: nat): Performance {
    match RatingCell(ev, e, a, j)
    case Some(t) => t
    case None => F
  }

  /** The normaliser treats a criterion as benefit only when its flag is set to true;
      false and an unset slot both select the cost formula. */
  predicate IsBenefit(types: CriteriaTypes, j: nat) {
    TypeCell(types, j) == Some(true)
  }

  // ---------------------------------------------------------------------------
  // Cell-preserving resize

  /** Rebuilds the ne x nc weight matrix: a cell that holds a label keeps it,
      every other cell gets "M". */
  method ResizeCriteriaWeights(prev: WeightMatrix, nc: nat, ne: nat) returns (res: WeightMatrix)
    ensures |res| == ne
    ensures forall e :: 0 <= e < ne ==> |res[e]| == nc
    ensures forall e, j :: 0 <= e < ne && 0 <= j < nc ==>
      res[e][j] == if WeightCell(prev, e, j).Some? then WeightCell(prev, e, j) else Some(M)
    ensures forall e: nat, j: nat :: ImportanceAt(res, e, j) == if e < ne && j < nc then ImportanceAt(prev, e, j) else M
  {
    res := [];
    var e := 0;
    while e < ne
      invariant 0 <= e <= ne
      invariant |res| == e
      invariant forall e' :: 0 <= e' < e ==> |res[e']| == nc
      invariant forall e', j :: 0 <= e' < e && 0 <= j < nc ==>
        res[e'][j] == if WeightCell(prev, e', j).Some? then WeightCell(prev, e', j) else Some(M)
    {
      var row := [];
      var j := 0;
      while j < nc
        invariant 0 <= j <= nc
        invariant |row| == j
        invariant forall j' :: 0 <= j' < j ==>
          row[j'] == if WeightCell(prev, e, j').Some? then WeightCell(prev, e, j') else Some(M)
      {
        var cell := if e < |prev| && j < |prev[e]| && prev[e][j].Some? then prev[e][j] else Some(M);
        row := row + [cell];
        j := j + 1;
      }
      res := res + [row];
      e := e + 1;
    }
  }

  /** Rebuilds the ne x na x nc rating tensor: a cell that holds a label keeps it,
      every other cell gets "F". */
  method ResizeAltEvaluations(prev: RatingTensor, na: nat, nc: nat, ne: nat) returns (res: RatingTensor)
    ensures |res| == ne
    ensures forall e :: 0 <= e < ne ==> |res[e]| == na
    ensures forall e, a :: 0 <= e < ne && 0 <= a < na ==> |res[e][a]| == nc
    ensures forall e, a, j :: 0 <= e < ne && 0 <= a < na && 0 <= j < nc ==>
      res[e][a][j] == if RatingCell(prev, e, a, j).Some? then RatingCell(prev, e, a, j) else Some(F)
    ensures forall e: nat, a: nat, j: nat :: PerformanceAt(res, e, a, j)
               == if e < ne && a < na && j < nc then PerformanceAt(prev, e, a, j) else F
  {
    res := [];
    var e := 0;
    while e < ne
      invariant 0 <= e <= ne
      invariant |res| == e
      invariant forall e' :: 0 <= e' < e ==> |res[e']| == na
      invariant forall e', a :: 0 <= e' < e && 0 <= a < na ==> |res[e'][a]| == nc
      invariant forall e', a, j :: 0 <= e' < e && 0 <= a < na && 0 <= j < nc ==>
        res[e'][a][j] == if RatingCell(prev, e', a, j).Some? then RatingCell(prev, e', a, j) else Some(F)
    {
      var altBlock := [];
      var a := 0;
      while a < na
        invariant 0 <= a <= na
        invariant |altBlock| == a
        invariant forall a' :: 0 <= a' < a ==> |altBlock[a']| == nc
        invariant forall a', j :: 0 <= a' < a && 0 <= j < nc ==>
          altBlock[a'][j] == if RatingCell(prev, e, a', j).Some? then RatingCell(prev, e, a', j) else Some(F)
      {
        var critRow := [];
        var j := 0;
        while j < nc
          invariant 0 <= j <= nc
          invariant |critRow| == j
          invariant forall j' :: 0 <= j' < j ==>
            critRow[j'] == if RatingCell(prev, e, a, j').Some? then RatingCell(prev, e, a, j') else Some(F)
        {
          var cell := if e < |prev| && a < |prev[e]| && j < |prev[e][a]| && prev[e][a][j].Some?
                      then prev[e][a][j] else Some(F);
          critRow := critRow + [cell];
          j := j + 1;
        }
        altBlock := altBlock + [critRow];
        a := a + 1;
      }
      res := res + [altBlock];
      e := e + 1;
    }
  }

  /** Rebuilds the nc benefit flags: a set flag is kept, every other slot becomes benefit. */
  method ResizeCriteriaTypes(prev: CriteriaTypes, nc: nat) returns (res: CriteriaTypes)
    ensures |res| == nc
    ensures forall j :: 0 <= j < nc ==>
      res[j] == if TypeCell(prev, j).Some? then TypeCell(prev, j) else Some(true)
    ensures forall j: nat :: j < nc && TypeCell(prev, j).Some? ==> IsBenefit(res, j) == IsBenefit(prev, j)
  {
    res := [];
    var j := 0;
    while j < nc
      invariant 0 <= j <= nc
      invariant |res| == j
      invariant forall j' :: 0 <= j' < j ==>
        res[j'] == if TypeCell(prev, j').Some? then TypeCell(prev, j') else Some(true)
    {
      var flag := if j < |prev| && prev[j].Some? then prev[j] else Some(true);
      res := res + [flag];
      j := j + 1;
    }
  }

  /** Resizes all three inputs to na alternatives, nc criteria and ne experts. */
  method ResizeMatrixes(w: WeightMatrix, ev: RatingTensor, types: CriteriaTypes, na: nat, nc: nat, ne: nat)
    returns (w': WeightMatrix, ev': RatingTensor, types': CriteriaTypes)
    ensures |w'| == ne && forall e :: 0 <= e < ne ==> |w'[e]| == nc
    ensures |ev'| == ne && forall e :: 0 <= e < ne ==> |ev'[e]| == na && forall a :: 0 <= a < na ==> |ev'[e][a]| == nc
    ensures |types'| == nc
    ensures forall e: nat, j: nat :: ImportanceAt(w', e, j) == if e < ne && j < nc then ImportanceAt(w, e, j) else M
    ensures forall e: nat, a: nat, j: nat :: PerformanceAt(ev', e, a, j)
               == if e < ne && a < na && j < nc then PerformanceAt(ev, e, a, j) else F
    ensures forall j :: 0 <= j < nc ==> types'[j] == if TypeCell(types, j).Some? then TypeCell(types, j) else Some(true)
  {
    w' := ResizeCriteriaWeights(w, nc, ne);
    ev' := ResizeAltEvaluations(ev, na, nc, ne);
    types' := ResizeCriteriaTypes(types, nc);
  }

  // ---------------------------------------------------------------------------
  // Single-cell edits

  /** Assignment to index i of an array, which grows the array (with `pad` in the
      gap) when i is past its end. */
  function Put<T>(s: seq<T>, i: nat, x: T, pad: T): (r: seq<T>)
    ensures |r| == if i < |s| then |s| else i + 1
    ensures r[i] == x
    ensures forall k :: 0 <= k < |r| && k != i ==> r[k] == if k < |s| then s[k] else pad
  {
    if i < |s| then s[i := x] else s + seq(i - |s|, _ => pad) + [x]
  }

  /** Sets expert e's label for criterion j; no other cell changes. */
  function SetCriteriaTerm(w: WeightMatrix, e: nat, j: nat, val: Importance): (r: WeightMatrix)
    ensures forall e': nat, j': nat :: WeightCell(r, e', j')
               == if e' == e && j' == j then Some(val) else WeightCell(w, e', j')
  {
    var row := if e < |w| then w[e] else [];
    Put(w, e, Put(row, j, Some(val), None), [])
  }

  /** Sets expert e's label for alternative a on criterion j; no other cell changes. */
  function SetAltTerm(ev: RatingTensor, e: nat, a: nat, j: nat, val: Performance): (r: RatingTensor)
    ensures forall e': nat, a': nat, j': nat :: RatingCell(r, e', a', j')
               == if e' == e && a' == a && j' == j then Some(val) else RatingCell(ev, e', a', j')
  {
    var block := if e < |ev| then ev[e] else [];
    var row := if a < |block| then block[a] else [];
    Put(ev, e, Put(block, a, Put(row, j, Some(val), None), []), [])
  }

  /** Flips the benefit flag of criterion idx (an unset slot becomes benefit);
      every other criterion keeps its flag. */
  function ToggleCriteriaType(types: CriteriaTypes, idx: nat): (r: CriteriaTypes)
    ensures IsBenefit(r, idx) == !IsBenefit(types, idx)
    ensures TypeCell(r, idx).Some?
    ensures forall k: nat :: k != idx ==> TypeCell(r, k) == TypeCell(types, k)
  {
    Put(types, idx, Some(!IsBenefit(types, idx)), None)
  }
}
