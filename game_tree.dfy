/** The search negamax performs, over an explicit game tree: a leaf holds
    the evaluation from the point of view of the side to move, an inner
    node the positions that side can move to.  Plain negamax scores a node
    as the best negated score of its children; alpha-beta scans the
    children left to right, keeps the first strictly best one, raises alpha
    and stops as soon as beta <= alpha.  The theorem of this module is
    Knuth and Moore's: the fail-soft result is a bound on the plain value
    that is exact strictly inside the window, hence exact for the root
    window (-inf, +inf). */
module GameTrees {
  import opened Options
  import opened ExtendedReals

  datatype Tree = Leaf(score: ExtReal) | Node(children: seq<Tree>)

  /** A scan's result: the best value so far and the index of the child that
      first attained it (None while no child beat -inf). */
  datatype Outcome = Outcome(value: ExtReal, best: Option<nat>)

  /** What a child is worth to its parent. */
  function ChildValue(t: Tree, i: nat): ExtReal
    requires t.Node? && i < |t.children|
    decreases t, 0
  {
    Neg(Negamax(t.children[i]))
  }

  /** Unpruned negamax: a leaf's score, or the best negated child value,
      -inf for a node without children. */
  function Negamax(t: Tree): ExtReal
    decreases t, 2
  {
    match t
    case Leaf(v) => v
    case Node(_) => BestFrom(t, 0)
  }

  /** The best value among the children from index i on. */
  function BestFrom(t: Tree, i: nat): ExtReal
    requires t.Node? && i <= |t.children|
    decreases t, 1, |t.children| - i
  {
    if i == |t.children| then NegInf else Max(ChildValue(t, i), BestFrom(t, i + 1))
  }

  /** Fail-soft alpha-beta: a leaf's score, or the scan over the children
      with best value -inf and no best child to start with. */
  function AlphaBeta(t: Tree, alpha: ExtReal, beta: ExtReal): Outcome
    decreases t, 2
  {
    match t
    case Leaf(v) => Outcome(v, None)
    case Node(_) => Scan(t, 0, alpha, beta, Outcome(NegInf, None))
  }

  /** The loop of negamax from child i on: the child is searched with the
      window (-beta, -alpha) and its value negated, a strictly better value
      replaces the best, alpha becomes max(alpha, value), and the scan stops
      after the first child with beta <= alpha. */
  function Scan(t: Tree, i: nat, alpha: ExtReal, beta: ExtReal, best: Outcome): Outcome
    requires t.Node? && i <= |t.children|
    decreases t, 1, |t.children| - i
  {
    if i == |t.children| then best
    else
      var e := Neg(AlphaBeta(t.children[i], Neg(beta), Neg(alpha)).value);
      var best' := if Lt(best.value, e) then Outcome(e, Some(i)) else best;
      var alpha' := Max(alpha, e);
      if Le(beta, alpha') then best' else Scan(t, i + 1, alpha', beta, best')
  }

  /** One step of the scan, for callers that run the loop themselves. */
  lemma ScanUnfold(t: Tree, i: nat, alpha: ExtReal, beta: ExtReal, best: Outcome)
    requires t.Node? && i <= |t.children|
    ensures i == |t.children| ==> Scan(t, i, alpha, beta, best) == best
    ensures i < |t.children| ==>
      var e := Neg(AlphaBeta(t.children[i], Neg(beta), Neg(alpha)).value);
      var best' := if Lt(best.value, e) then Outcome(e, Some(i)) else best;
      Scan(t, i, alpha, beta, best) == if Le(beta, Max(alpha, e)) then best' else Scan(t, i + 1, Max(alpha, e), beta, best')
  {}

  // ---------------------------------------------------------------------
  // Plain negamax is the maximum of the child values.

  /** BestFrom(t, i) bounds every child value from i on and is one of them,
      or -inf when there are none. */
  lemma {:induction false} BestFromIsMaximum(t: Tree, i: nat)
    requires t.Node? && i <= |t.children|
    ensures forall j :: i <= j < |t.children| ==> Le(ChildValue(t, j), BestFrom(t, i))
    ensures (i == |t.children| && BestFrom(t, i) == NegInf) ||
            exists j :: i <= j < |t.children| && BestFrom(t, i) == ChildValue(t, j)
    decreases |t.children| - i
  {
    if i < |t.children| {
      BestFromIsMaximum(t, i + 1);
      forall j | i <= j < |t.children| ensures Le(ChildValue(t, j), BestFrom(t, i)) {
        if j > i {
          LeTransitive(ChildValue(t, j), BestFrom(t, i + 1), BestFrom(t, i));
        }
      }
      if i + 1 == |t.children| {
        assert !Lt(ChildValue(t, i), BestFrom(t, i + 1));
      }
      var j := i;
      if BestFrom(t, i) != ChildValue(t, i) && i + 1 < |t.children| {
        j :| i + 1 <= j < |t.children| && BestFrom(t, i + 1) == ChildValue(t, j);
      }
      assert i <= j < |t.children| && BestFrom(t, i) == ChildValue(t, j);
      assert exists k :: i <= k < |t.children| && BestFrom(t, i) == ChildValue(t, k);
    }
  }

  /** The value of a node is at least every child's value, and is attained
      by a child unless the node has no children. */
  lemma NegamaxIsMaximum(t: Tree)
    requires t.Node?
    ensures forall j :: 0 <= j < |t.children| ==> Le(ChildValue(t, j), Negamax(t))
    ensures |t.children| == 0 ==> Negamax(t) == NegInf
    ensures |t.children| > 0 ==> exists j :: 0 <= j < |t.children| && Negamax(t) == ChildValue(t, j)
  {
    BestFromIsMaximum(t, 0);
  }

  // ---------------------------------------------------------------------
  // The Knuth-Moore bounds.

  /** r is a fail-soft alpha-beta value for v in the window (alpha, beta):
      failing low it bounds v from above, failing high from below, and
      strictly inside the window it is v. */
  ghost predicate FailSoft(r: ExtReal, v: ExtReal, alpha: ExtReal, beta: ExtReal) {
    (Le(r, alpha) ==> Le(v, r)) &&
    (Le(beta, r) ==> Le(r, v)) &&
    (Lt(alpha, r) && Lt(r, beta) ==> r == v)
  }

  /** The fail-soft theorem: for any non-empty window the pruned value
      bounds the unpruned one as FailSoft says. */
  lemma {:induction false} AlphaBetaIsFailSoft(t: Tree, alpha: ExtReal, beta: ExtReal)
    requires Lt(alpha, beta)
    ensures FailSoft(AlphaBeta(t, alpha, beta).value, Negamax(t), alpha, beta)
    decreases t, 2
  {
    if t.Node? {
      ScanIsFailSoft(t, 0, alpha, alpha, beta, Outcome(NegInf, None));
    }
  }

  /** A child's bounds, seen from the parent: e = -r and u = -v for the
      child's result r and value v in the child's window (-beta, -alpha). */
  lemma NegatedFailSoft(r: ExtReal, v: ExtReal, alpha: ExtReal, beta: ExtReal)
    requires FailSoft(r, v, Neg(beta), Neg(alpha))
    ensures Le(beta, Neg(r)) ==> Le(Neg(r), Neg(v))
    ensures Le(Neg(r), alpha) ==> Le(Neg(v), Neg(r))
    ensures Lt(alpha, Neg(r)) && Lt(Neg(r), beta) ==> Neg(r) == Neg(v)
  {
    NegReversesOrder(Neg(r), beta);
    NegReversesOrder(alpha, Neg(r));
    NegReversesOrder(r, v);
    NegReversesOrder(v, r);
    NegInvolution(r);
    NegInvolution(alpha);
    NegInvolution(beta);
  }

  /** The scan's invariant, from child i on, for a search entered with
      window (alpha0, beta): no cut-off yet (alpha < beta), alpha is
      max(alpha0, best), every child before i is worth at most best, and
      unless best is at most alpha0 some child before i is worth at least best. */
  ghost predicate ScanInvariant(t: Tree, i: nat, alpha0: ExtReal, alpha: ExtReal, beta: ExtReal, best: Outcome)
    requires t.Node? && i <= |t.children|
  {
    Lt(alpha, beta) && alpha == Max(alpha0, best.value) &&
    (forall j :: 0 <= j < i ==> Le(ChildValue(t, j), best.value)) &&
    (Le(best.value, alpha0) || exists k :: 0 <= k < i && Le(best.value, ChildValue(t, k)))
  }

  lemma {:induction false} ScanIsFailSoft(t: Tree, i: nat, alpha0: ExtReal, alpha: ExtReal, beta: ExtReal, best: Outcome)
    requires t.Node? && i <= |t.children|
    requires ScanInvariant(t, i, alpha0, alpha, beta, best)
    ensures FailSoft(Scan(t, i, alpha, beta, best).value, Negamax(t), alpha0, beta)
    decreases t, 1, |t.children| - i
  {
    var v := Negamax(t);
    var r := Scan(t, i, alpha, beta, best).value;
    NegamaxIsMaximum(t);
    if i == |t.children| {
      ScanEnd(t, alpha0, alpha, beta, best);
    } else {
      var c := t.children[i];
      var res := AlphaBeta(c, Neg(beta), Neg(alpha)).value;
      var e := Neg(res);
      var u := ChildValue(t, i);
      NegReversesOrder(alpha, beta);
      AlphaBetaIsFailSoft(c, Neg(beta), Neg(alpha));
      NegatedFailSoft(res, Negamax(c), alpha, beta);
      var best' := if Lt(best.value, e) then Outcome(e, Some(i)) else best;
      var alpha' := Max(alpha, e);
      if Le(beta, alpha') {
        ScanCutOff(t, i, alpha0, alpha, beta, best, e);
      } else {
        ScanStep(t, i, alpha0, alpha, beta, best, e);
        ScanIsFailSoft(t, i + 1, alpha0, alpha', beta, best');
      }
    }
  }

  /** All children scanned without a cut-off: best bounds the node's value,
      and equals it unless it is at most alpha0. */
  lemma ScanEnd(t: Tree, alpha0: ExtReal, alpha: ExtReal, beta: ExtReal, best: Outcome)
    requires t.Node? && ScanInvariant(t, |t.children|, alpha0, alpha, beta, best)
    ensures FailSoft(best.value, Negamax(t), alpha0, beta)
  {
    var v := Negamax(t);
    NegamaxIsMaximum(t);
    if |t.children| == 0 {
      InfinitiesAreExtreme(best.value);
    } else {
      var j :| 0 <= j < |t.children| && v == ChildValue(t, j);
    }
    assert Le(v, best.value);
    assert Le(best.value, alpha) by {
      MaxIsUpperBound(alpha0, best.value);
    }
    if Lt(alpha0, best.value) && Lt(best.value, beta) {
      var k :| 0 <= k < |t.children| && Le(best.value, ChildValue(t, k));
      LeTransitive(best.value, ChildValue(t, k), v);
      LeAntisymmetric(best.value, v);
    }
    if Le(beta, best.value) {
      LeTransitive(beta, best.value, alpha);
      NotLeIsLt(alpha, beta);
    }
  }

  lemma MaxIsUpperBound(a: ExtReal, b: ExtReal)
    ensures Le(a, Max(a, b)) && Le(b, Max(a, b))
  {}

  /** The cut-off: the child's value e raised alpha to beta or beyond, so e
      is the new best, e >= beta, and the child is worth at least e. */
  lemma ScanCutOff(t: Tree, i: nat, alpha0: ExtReal, alpha: ExtReal, beta: ExtReal, best: Outcome, e: ExtReal)
    requires t.Node? && i < |t.children|
    requires ScanInvariant(t, i, alpha0, alpha, beta, best)
    requires e == Neg(AlphaBeta(t.children[i], Neg(beta), Neg(alpha)).value)
    requires Le(beta, e) ==> Le(e, ChildValue(t, i))
    requires Le(beta, Max(alpha, e))
    ensures FailSoft((if Lt(best.value, e) then Outcome(e, Some(i)) else best).value, Negamax(t), alpha0, beta)
  {
    var v := Negamax(t);
    NegamaxIsMaximum(t);
    NotLeIsLt(alpha, beta);
    assert Max(alpha, e) == e;
    MaxIsUpperBound(alpha0, best.value);
    if !Lt(best.value, e) {
      NotLeIsLt(best.value, e);
      LeTransitive(beta, e, best.value);
      LeTransitive(beta, best.value, alpha);
      assert false;
    }
    LeTransitive(e, ChildValue(t, i), v);
    assert Le(alpha0, alpha);
    if Le(e, alpha0) {
      LeTransitive(beta, e, alpha0);
      LeTransitive(beta, alpha0, alpha);
      assert false;
    }
    NotLeIsLt(beta, e);
  }

  /** One child without a cut-off keeps the invariant. */
  lemma ScanStep(t: Tree, i: nat, alpha0: ExtReal, alpha: ExtReal, beta: ExtReal, best: Outcome, e: ExtReal)
    requires t.Node? && i < |t.children|
    requires ScanInvariant(t, i, alpha0, alpha, beta, best)
    requires Le(e, alpha) ==> Le(ChildValue(t, i), e)
    requires Lt(alpha, e) && Lt(e, beta) ==> e == ChildValue(t, i)
    requires !Le(beta, Max(alpha, e))
    ensures ScanInvariant(t, i + 1, alpha0, Max(alpha, e), beta,
                          if Lt(best.value, e) then Outcome(e, Some(i)) else best)
  {
    var best' := if Lt(best.value, e) then Outcome(e, Some(i)) else best;
    var u := ChildValue(t, i);
    NotLeIsLt(Max(alpha, e), beta);
    MaxAssociative(alpha0, best.value, e);
    assert Max(best.value, e) == best'.value;
    MaxIsUpperBound(alpha, e);
    MaxIsUpperBound(best.value, e);
    assert Lt(e, beta) by {
      if !Lt(e, beta) {
        NotLeIsLt(e, beta);
        LeTransitive(beta, e, Max(alpha, e));
      }
    }
    // the new child is worth at most the new best
    if Le(e, alpha) {
      LeTransitive(u, e, best'.value);
    } else {
      NotLeIsLt(e, alpha);
      assert u == e;
    }
    forall j | 0 <= j < i + 1 ensures Le(ChildValue(t, j), best'.value) {
      if j < i {
        LeTransitive(ChildValue(t, j), best.value, best'.value);
      }
    }
    // some child is worth at least the new best, unless it is at most alpha0
    if Lt(best.value, e) && !Le(e, alpha0) {
      NotLeIsLt(e, alpha0);
      assert Lt(alpha, e) by {
        assert alpha == alpha0 || alpha == best.value;
      }
      assert Le(best'.value, ChildValue(t, i));
    }
  }

  /** For the root window (-inf, +inf) the pruned value is the plain one. */
  lemma RootWindowIsExact(t: Tree)
    ensures AlphaBeta(t, NegInf, PosInf).value == Negamax(t)
  {
    AlphaBetaIsFailSoft(t, NegInf, PosInf);
    var r := AlphaBeta(t, NegInf, PosInf).value;
    InfinitiesAreExtreme(Negamax(t));
    if r == NegInf {
      LeAntisymmetric(Negamax(t), NegInf);
    } else if r == PosInf {
      LeAntisymmetric(Negamax(t), PosInf);
    } else {
      InfinitiesAreExtreme(r);
    }
  }

  // ---------------------------------------------------------------------
  // The move chosen at the root.

  /** The root scan's invariant: alpha equals best, best is below +inf,
      and best is -inf with no child chosen while every child so far is
      worth -inf, or is the value of the chosen child k, which every child
      before k is worth strictly less than and no child so far exceeds. */
  ghost predicate RootInvariant(t: Tree, i: nat, best: Outcome)
    requires t.Node? && i <= |t.children|
  {
    Lt(best.value, PosInf) &&
    (best.best.None? ==> best.value == NegInf && forall j :: 0 <= j < i ==> ChildValue(t, j) == NegInf) &&
    (best.best.Some? ==> best.value != NegInf && FirstBest(t, i, best.best.value, best.value))
  }

  /** Child k is worth v, the children before k strictly less, and the
      children before i no more. */
  ghost predicate FirstBest(t: Tree, i: nat, k: nat, v: ExtReal)
    requires t.Node? && i <= |t.children|
  {
    k < i && ChildValue(t, k) == v &&
    (forall j :: 0 <= j < k ==> Lt(ChildValue(t, j), v)) &&
    (forall j :: 0 <= j < i ==> Le(ChildValue(t, j), v))
  }

  lemma {:induction false} RootScanFindsFirstBest(t: Tree, i: nat, best: Outcome)
    requires t.Node? && i <= |t.children|
    requires RootInvariant(t, i, best)
    ensures var o := Scan(t, i, best.value, PosInf, best);
      (o.best.None? ==> forall j :: 0 <= j < |t.children| ==> ChildValue(t, j) == NegInf) &&
      (o.best.Some? ==> o.value != NegInf && FirstBest(t, |t.children|, o.best.value, o.value))
    decreases |t.children| - i
  {
    if i < |t.children| {
      var c := t.children[i];
      var res := AlphaBeta(c, NegInf, Neg(best.value)).value;
      var e := Neg(res);
      NegReversesOrder(best.value, PosInf);
      AlphaBetaIsFailSoft(c, NegInf, Neg(best.value));
      NegatedFailSoft(res, Negamax(c), best.value, PosInf);
      InfinitiesAreExtreme(e);
      if Lt(best.value, e) {
        RootStepUpdate(t, i, best, e);
        if e != PosInf {
          RootScanFindsFirstBest(t, i + 1, Outcome(e, Some(i)));
        }
      } else {
        NotLeIsLt(e, best.value);
        LeTransitive(ChildValue(t, i), e, best.value);
        RootStepKeep(t, i, best);
        RootScanFindsFirstBest(t, i + 1, best);
      }
    }
  }

  /** A child that beats best is exact, so it becomes the first best; at
      +inf nothing can beat it and the scan cuts off. */
  lemma RootStepUpdate(t: Tree, i: nat, best: Outcome, e: ExtReal)
    requires t.Node? && i < |t.children| && RootInvariant(t, i, best)
    requires ChildValue(t, i) == e && Lt(best.value, e)
    ensures e != NegInf
    ensures e == PosInf ==> FirstBest(t, |t.children|, i, e)
    ensures e != PosInf ==> RootInvariant(t, i + 1, Outcome(e, Some(i)))
  {
    forall j | 0 <= j < i ensures Lt(ChildValue(t, j), e) {
      if best.best.Some? {
        assert Le(ChildValue(t, j), best.value);
      }
    }
    if e == PosInf {
      forall j | 0 <= j < |t.children| ensures Le(ChildValue(t, j), e) {
        InfinitiesAreExtreme(ChildValue(t, j));
      }
    }
  }

  /** A child worth at most best leaves the choice as it is. */
  lemma RootStepKeep(t: Tree, i: nat, best: Outcome)
    requires t.Node? && i < |t.children| && RootInvariant(t, i, best)
    requires Le(ChildValue(t, i), best.value)
    ensures RootInvariant(t, i + 1, best)
  {}

  /** With the root window the scan picks the first child whose value is
      the node's value, and picks none exactly when every child is worth
      -inf (in particular when there are no children). */
  lemma RootChoosesFirstBest(t: Tree)
    requires t.Node?
    ensures var o := AlphaBeta(t, NegInf, PosInf);
      o.value == Negamax(t) &&
      (o.best.None? <==> forall j :: 0 <= j < |t.children| ==> ChildValue(t, j) == NegInf) &&
      (o.best.Some? ==> o.best.value < |t.children| && ChildValue(t, o.best.value) == Negamax(t) &&
                        forall j :: 0 <= j < o.best.value ==> Lt(ChildValue(t, j), Negamax(t)))
  {
    RootWindowIsExact(t);
    RootScanFindsFirstBest(t, 0, Outcome(NegInf, None));
    var o := AlphaBeta(t, NegInf, PosInf);
    if o.best.Some? {
      assert ChildValue(t, o.best.value) != NegInf;
    }
  }
}
