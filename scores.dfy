/**
  Scores of the search: an integer extended with the two infinities that the
  search uses as sentinels for "no move found yet" (minus infinity for the
  maximiser O, plus infinity for the minimiser X).
 */
module Scores {

  datatype Score = NegInf | Fin(n: int) | PosInf

  /** The strict order of the extended integers. */
  predicate Lt(a: Score, b: Score) {
    || (a.NegInf? && !b.NegInf?)
    || (a.Fin? && b.PosInf?)
    || (a.Fin? && b.Fin? && a.n < b.n)
  }

  predicate Le(a: Score, b: Score) {
    !Lt(b, a)
  }

  /** Like the built-in max: the first argument is kept unless the second is strictly larger. */
  function Max(a: Score, b: Score): (r: Score)
    ensures Le(a, r) && Le(b, r)
    ensures r == a || r == b
  {
    if Lt(a, b) then b else a
  }

  /** Like the built-in min: the first argument is kept unless the second is strictly smaller. */
  function Min(a: Score, b: Score): (r: Score)
    ensures Le(r, a) && Le(r, b)
    ensures r == a || r == b
  {
    if Lt(b, a) then b else a
  }

  /** `abs(score) == float('inf')` */
  predicate IsInfinite(s: Score) {
    !s.Fin?
  }

  /** Lt is a strict total order. */
  lemma LtStrictTotal(a: Score, b: Score, c: Score)
    ensures !Lt(a, a)
    ensures Lt(a, b) ==> !Lt(b, a)
    ensures Lt(a, b) && Lt(b, c) ==> Lt(a, c)
    ensures Lt(a, b) || a == b || Lt(b, a)
  {
  }
}
