/** The two seven-term linguistic scales: importance labels for criterion
    weights and performance labels for alternative ratings. */
module Scales {
  import opened Fuzzy

  datatype Importance = VL | L | ML | M | MH | H | VH

  datatype Performance = VP | P | MP | F | MG | G | VG

  /** Importance label to TFN. Every entry is an ordered triple inside [0,1]. */
  function ImportanceTri(t: Importance): (r: Tri)
    ensures InUnit(r)
  {
    match t
    case VL => Tri(0.0, 0.0, 0.1)
    case L => Tri(0.0, 0.1, 0.3)
    case ML => Tri(0.1, 0.3, 0.5)
    case M => Tri(0.3, 0.5, 0.7)
    case MH => Tri(0.5, 0.7, 0.9)
    case H => Tri(0.7, 0.7, 1.0)
    case VH => Tri(0.9, 1.0, 1.0)
  }

  /** Performance label to TFN. Every entry is an ordered triple inside [0,1]. */
  function PerformanceTri(t: Performance): (r: Tri)
    ensures InUnit(r)
  {
    match t
    case VP => Tri(0.0, 0.0, 0.1)
    case P => Tri(0.0, 0.1, 0.3)
    case MP => Tri(0.1, 0.3, 0.5)
    case F => Tri(0.3, 0.5, 0.7)
    case MG => Tri(0.5, 0.7, 0.9)
    case G => Tri(0.7, 0.7, 1.0)
    case VG => Tri(0.9, 1.0, 1.0)
  }

  /** Position of a label on its scale, 0 for the lowest. */
  function ImportanceLevel(t: Importance): nat {
    match t
    case VL => 0 case L => 1 case ML => 2 case M => 3 case MH => 4 case H => 5 case VH => 6
  }

  function PerformanceLevel(t: Performance): nat {
    match t
    case VP => 0 case P => 1 case MP => 2 case F => 3 case MG => 4 case G => 5 case VG => 6
  }

  /** Both scales are monotone: a higher label never has a smaller component,
      and neighbouring labels overlap (the next lower bound is below the upper bound). */
  lemma ImportanceScaleMonotone(a: Importance, b: Importance)
    ensures ImportanceLevel(a) <= ImportanceLevel(b) ==> Dominates(ImportanceTri(b), ImportanceTri(a))
    ensures ImportanceLevel(b) == ImportanceLevel(a) + 1 ==> ImportanceTri(b).l < ImportanceTri(a).u
  {
  }

  lemma PerformanceScaleMonotone(a: Performance, b: Performance)
    ensures PerformanceLevel(a) <= PerformanceLevel(b) ==> Dominates(PerformanceTri(b), PerformanceTri(a))
    ensures PerformanceLevel(b) == PerformanceLevel(a) + 1 ==> PerformanceTri(b).l < PerformanceTri(a).u
  {
  }

  /** The two tables hold the same seven TFNs, level for level. */
  lemma ScalesAgree(a: Importance, b: Performance)
    ensures ImportanceLevel(a) == PerformanceLevel(b) ==> ImportanceTri(a) == PerformanceTri(b)
  {
  }
}
