/**
 * Search scores. The engine uses Python floats, but only ever produces
 * integers from the evaluator and the two infinities as initial bounds and
 * checkmate sentinels, so a score is an extended integer.
 */
module Scores {

  datatype Score = NegInf | Fin(n: int) | PosInf

  /** The strict order of the extended integers: `a < b`. */
  predicate Less(a: Score, b: Score)
  {
    match a
    case NegInf => !b.NegInf?
    case Fin(x) => b.PosInf? || (b.Fin? && x < b.n)
    case PosInf => false
  }

  /** `a <= b`. */
  predicate Le(a: Score, b: Score)
  {
    !Less(b, a)
  }

  /** Python's `max(a, b)`: the first argument unless the second is strictly larger. */
  function Max(a: Score, b: Score): (r: Score)
    ensures Le(a, r) && Le(b, r)
    ensures r == a || r == b
  {
    if Less(a, b) then b else a
  }

  /** Python's `min(a, b)`: the first argument unless the second is strictly smaller. */
  function Min(a: Score, b: Score): (r: Score)
    ensures Le(r, a) && Le(r, b)
    ensures r == a || r == b
  {
    if Less(b, a) then b else a
  }

  /** `Less` is a strict total order. */
  lemma LessIsStrictTotalOrder(a: Score, b: Score, c: Score)
    ensures !Less(a, a)
    ensures Less(a, b) ==> !Less(b, a)
    ensures Less(a, b) && Less(b, c) ==> Less(a, c)
    ensures a != b ==> Less(a, b) || Less(b, a)
  {
  }
}
