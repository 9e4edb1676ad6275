/** Scores of the search: the integers extended with the two infinities that the
    searches use as the starting value of a running maximum or minimum. */
module ExtendedInt {

  datatype Score = NegInf | Fin(n: int) | PosInf

  /** The strict order of scores, as `<` orders -inf, integers and +inf. */
  predicate Less(x: Score, y: Score) {
    match x
    case NegInf => !y.NegInf?
    case Fin(a) => y.PosInf? || (y.Fin? && a < y.n)
    case PosInf => false
  }

  /** x <= y; the order is total, so this is the negation of y < x. */
  predicate AtMost(x: Score, y: Score) {
    !Less(y, x)
  }

  /** The larger of two scores. */
  function Max(x: Score, y: Score): (r: Score)
    ensures AtMost(x, r) && AtMost(y, r)
    ensures r == x || r == y
  {
    if Less(x, y) then y else x
  }

  /** The smaller of two scores. */
  function Min(x: Score, y: Score): (r: Score)
    ensures AtMost(r, x) && AtMost(r, y)
    ensures r == x || r == y
  {
    if Less(y, x) then y else x
  }
}
