/** The evaluator of a TrainingBoard: the features of the plain board's
    evaluation, weighted by the side's own weights, with a won or lost
    position scored as plus or minus infinity. */
module Training {
  import opened Constants
  import opened Options
  import opened ExtendedReals
  import opened BoardRules

  /** The weights a side evaluates with: the first entry for WHITE, the second for BLACK. */
  function WeightsFor(white: Weights, black: Weights, c: Color): (w: Weights)
    ensures c == White ==> w == white
    ensures c == Black ==> w == black
  {
    if c == White then white else black
  }

  /** TrainingBoard.evaluate from side c's point of view. */
  ghost function TrainedScore(s: BoardState, white: Weights, black: Weights, c: Color): ExtReal
    requires PawnsPlaced(s.grid)
  {
    if WinnerOf(s) == Some(c) then PosInf
    else if WinnerOf(s) == Some(Opposite(c)) then NegInf
    else Fin(Combine(WeightsFor(white, black, c), FeaturesOf(s, c)))
  }

  /** What evaluate returns on a board of either kind. */
  ghost function Evaluation(s: BoardState, c: Color): ExtReal
    requires PawnsPlaced(s.grid)
  {
    match s.evaluator
    case Standard => Fin(StandardScore(s, c))
    case Trained(white, black) => TrainedScore(s, white, black, c)
  }

  /** A finished game scores infinitely well for the winner and infinitely
      badly for the loser, so the two views are exact negations; an
      unfinished one scores a finite value. */
  lemma TrainedScoreAtEnd(s: BoardState, white: Weights, black: Weights, c: Color)
    requires PawnsPlaced(s.grid)
    ensures WinnerOf(s) == Some(c) ==> TrainedScore(s, white, black, c) == PosInf
    ensures WinnerOf(s) == Some(Opposite(c)) ==> TrainedScore(s, white, black, c) == NegInf
    ensures WinnerOf(s).Some? ==> TrainedScore(s, white, black, c) == Neg(TrainedScore(s, white, black, Opposite(c)))
    ensures WinnerOf(s).None? ==> TrainedScore(s, white, black, c).Fin?
  {
    assert c == White || c == Black;
    assert Opposite(Opposite(c)) == c;
  }

  /** A side's score depends on its own weights only. */
  lemma TrainedScoreUsesOwnWeights(s: BoardState, white: Weights, black: Weights, other: Weights)
    requires PawnsPlaced(s.grid)
    ensures TrainedScore(s, white, black, White) == TrainedScore(s, white, other, White)
    ensures TrainedScore(s, white, black, Black) == TrainedScore(s, other, black, Black)
  {}

  /** The plain evaluator is the weighted one with weights (9.35, 7, 5, 3)
      on every unfinished position, and a finite stand-in for the infinities. */
  lemma StandardIsWeighted(s: BoardState, c: Color)
    requires PawnsPlaced(s.grid)
    ensures WinnerOf(s).None? ==>
            Fin(StandardScore(s, c)) == TrainedScore(s, StandardWeights, StandardWeights, c)
    ensures WinnerOf(s) == Some(c) ==> StandardScore(s, c) == 10000.0
    ensures WinnerOf(s) == Some(Opposite(c)) ==> StandardScore(s, c) == -10000.0
  {
    assert c == White || c == Black;
  }
}
