/** Scores as the program's floats are used: a real number or one of the two
    infinities float("inf") and float("-inf"). */
module ExtendedReals {
  datatype ExtReal = NegInf | Fin(r: real) | PosInf

  /** Strict order, with NegInf below and PosInf above every real. */
  predicate Lt(a: ExtReal, b: ExtReal) {
    match (a, b)
    case (NegInf, NegInf) => false
    case (NegInf, _) => true
    case (Fin(x), Fin(y)) => x < y
    case (Fin(_), PosInf) => true
    case (_, _) => false
  }

  predicate Le(a: ExtReal, b: ExtReal) {
    a == b || Lt(a, b)
  }

  /** Unary minus, which swaps the infinities. */
  function Neg(a: ExtReal): ExtReal {
    match a
    case NegInf => PosInf
    case Fin(x) => Fin(-x)
    case PosInf => NegInf
  }

  /** Python's max(a, b): the first argument when they are equal. */
  function Max(a: ExtReal, b: ExtReal): (m: ExtReal)
    ensures Le(a, m) && Le(b, m)
    ensures m == a || m == b
  {
    if Lt(a, b) then b else a
  }

  lemma LtIrreflexive(a: ExtReal)
    ensures !Lt(a, a)
  {}

  lemma LtTransitive(a: ExtReal, b: ExtReal, c: ExtReal)
    requires Lt(a, b) && Lt(b, c)
    ensures Lt(a, c)
  {}

  lemma Trichotomy(a: ExtReal, b: ExtReal)
    ensures Lt(a, b) || a == b || Lt(b, a)
  {}

  lemma NegInvolution(a: ExtReal)
    ensures Neg(Neg(a)) == a
  {}

  lemma NegReversesOrder(a: ExtReal, b: ExtReal)
    ensures Lt(a, b) <==> Lt(Neg(b), Neg(a))
  {}

  lemma LeTransitive(a: ExtReal, b: ExtReal, c: ExtReal)
    requires Le(a, b) && Le(b, c)
    ensures Le(a, c)
  {}

  lemma LeAntisymmetric(a: ExtReal, b: ExtReal)
    requires Le(a, b) && Le(b, a)
    ensures a == b
  {}

  /** Not Le(b, a) is Lt(a, b): the order is total. */
  lemma NotLeIsLt(a: ExtReal, b: ExtReal)
    ensures !Le(b, a) <==> Lt(a, b)
  {}

  lemma MaxAssociative(a: ExtReal, b: ExtReal, c: ExtReal)
    ensures Max(Max(a, b), c) == Max(a, Max(b, c))
  {}

  /** -inf and +inf are the least and the greatest values. */
  lemma InfinitiesAreExtreme(a: ExtReal)
    ensures Le(NegInf, a) && Le(a, PosInf)
  {}
}
