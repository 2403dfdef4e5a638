/** What the solver's verdict means for the original system, in exact
    arithmetic: a reported unique solution is a solution of the system read
    in, and the only one. */
module Correctness {
  import opened Augmented
  import opened Elimination
  import opened Substitution

  /** A verdict of one solution means no pivot was skipped: a skipped pivot
      leaves its value at 0.0, which reads as infinitely many. */
  lemma {:induction false} UniqueUsesEveryPivot(m: Matrix, x: seq<real>)
    requires IsAugmented(m)
    requires Classify(BackSubst(Eliminate(m, |m|))) == Unique(x)
    ensures PivotsAbove(Eliminate(m, |m|), |m|)
  {
    var e := Eliminate(m, |m|);
    assert BackSubst(e) == Some(x);
    forall q | 0 <= q < |m| ensures Abs(e[q][q]) > EPSILON {
      if Abs(e[q][q]) <= EPSILON {
        SkippedPivotGivesZero(e, x, q);
        assert false;
      }
    }
  }

  /** When no pivot is skipped, in exact arithmetic the solver finds a
      solution of the original system, and it is the only one. */
  lemma {:induction false} NoSkippedPivotSolves(m: Matrix)
    requires IsAugmented(m)
    requires PivotsAbove(Eliminate(m, |m|), |m|)
    ensures BackSubst(Eliminate(m, |m|)).Some?
    ensures Solves(m, BackSubst(Eliminate(m, |m|)).value)
    ensures forall y :: Solves(m, y) ==> y == BackSubst(Eliminate(m, |m|)).value
  {
    var e := Eliminate(m, |m|);
    ZerosBelowUsedPivots(m, |m|);
    assert UpperTriangular(e);
    TriangularBackSubst(e);
    var x := BackSubst(e).value;
    EliminateKeepsSolutions(m, |m|, x);
    forall y | Solves(m, y) ensures y == x {
      EliminateKeepsSolutions(m, |m|, y);
    }
  }

  /** The solver reports "no solution" only after skipping a pivot. */
  lemma {:induction false} InconsistentSkipsAPivot(m: Matrix)
    requires IsAugmented(m)
    requires Classify(BackSubst(Eliminate(m, |m|))) == Inconsistent
    ensures exists q :: 0 <= q < |m| && Abs(Eliminate(m, |m|)[q][q]) <= EPSILON
  {
    if forall q :: 0 <= q < |m| ==> Abs(Eliminate(m, |m|)[q][q]) > EPSILON {
      assert PivotsAbove(Eliminate(m, |m|), |m|);
      NoSkippedPivotSolves(m);
      assert false;
    }
  }

  /** The solver's central promise: a reported solution solves the system
      read in, and is its only solution. */
  lemma {:induction false} UniqueIsTheSolution(m: Matrix, x: seq<real>)
    requires IsAugmented(m)
    requires Classify(BackSubst(Eliminate(m, |m|))) == Unique(x)
    ensures Solves(m, x)
    ensures forall y :: Solves(m, y) ==> y == x
  {
    UniqueUsesEveryPivot(m, x);
    NoSkippedPivotSolves(m);
  }
}
