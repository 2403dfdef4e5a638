/** Concrete systems and the verdict the solver reaches on each, in exact
    arithmetic. */
module Examples {
  import opened Augmented
  import opened Elimination
  import opened Substitution

  // ---------------------------------------------------------------------
  // x + y = 3 and x + y = 5

  lemma {:induction false} ContradictoryRowsEliminate()
    ensures Eliminate([[1.0, 1.0, 3.0], [1.0, 1.0, 5.0]], 2) == [[1.0, 1.0, 3.0], [0.0, 0.0, 2.0]]
  {
    var m := [[1.0, 1.0, 3.0], [1.0, 1.0, 5.0]];
    var e1 := [[1.0, 1.0, 3.0], [0.0, 0.0, 2.0]];
    assert PivotRow(m, 0) == 0;
    assert ReduceRow(m[1], m[0], 0) == e1[1];
    assert Eliminate(m, 1) == e1;
    assert PivotRow(e1, 1) == 1;
  }

  /** Two equations with the same left side and different right sides have
      no common solution. */
  lemma {:induction false} ContradictoryRowsAreInconsistent()
    ensures Classify(BackSubst(Eliminate([[1.0, 1.0, 3.0], [1.0, 1.0, 5.0]], 2))) == Inconsistent
  {
    ContradictoryRowsEliminate();
    var e := [[1.0, 1.0, 3.0], [0.0, 0.0, 2.0]];
    assert SolveFrom(e, 2) == Some([]);
    assert SolveFrom(e, 1) == None;
  }

  // ---------------------------------------------------------------------
  // x + y = 3 and 2x + 2y = 6

  lemma {:induction false} DependentRowsEliminate()
    ensures Eliminate([[1.0, 1.0, 3.0], [2.0, 2.0, 6.0]], 2) == [[2.0, 2.0, 6.0], [0.0, 0.0, 0.0]]
  {
    var m := [[1.0, 1.0, 3.0], [2.0, 2.0, 6.0]];
    var s := [[2.0, 2.0, 6.0], [1.0, 1.0, 3.0]];
    var e1 := [[2.0, 2.0, 6.0], [0.0, 0.0, 0.0]];
    assert PivotRow(m, 0) == 1;
    assert SwapRows(m, 0, 1) == s;
    assert ReduceRow(s[1], s[0], 0) == e1[1];
    assert Eliminate(m, 1) == e1;
    assert PivotRow(e1, 1) == 1;
  }

  /** One equation twice over: the second row vanishes, is consistent within
      EPSILON, its value is left at 0.0, and the verdict is infinitely many
      solutions. */
  lemma {:induction false} DependentRowsAreInfinite()
    ensures Classify(BackSubst(Eliminate([[1.0, 1.0, 3.0], [2.0, 2.0, 6.0]], 2))) == Infinite
  {
    DependentRowsEliminate();
    var e := [[2.0, 2.0, 6.0], [0.0, 0.0, 0.0]];
    assert SolveFrom(e, 2) == Some([]);
    assert Dot(e[1][2..2], []) == 0.0;
    SolveFromAt(e, 1, [], 0.0);
    assert [0.0] + [] == [0.0];
    assert Dot(e[0][1..2], [0.0]) == 0.0;
    SolveFromAt(e, 0, [0.0], 0.0);
    assert [3.0] + [0.0] == [3.0, 0.0];
    assert HasZero([3.0, 0.0]) by { assert [3.0, 0.0][1] == 0.0; }
  }

  // ---------------------------------------------------------------------
  // x = 0 and y = 1

  lemma {:induction false} ZeroComponentEliminates()
    ensures Eliminate([[1.0, 0.0, 0.0], [0.0, 1.0, 1.0]], 2) == [[1.0, 0.0, 0.0], [0.0, 1.0, 1.0]]
  {
    var m := [[1.0, 0.0, 0.0], [0.0, 1.0, 1.0]];
    assert PivotRow(m, 0) == 0;
    assert SwapRows(m, 0, 0) == m;
    PivotStepAt(m, 0, 0);
    PivotStepAt(m, 0, 1);
    assert ReduceRow(m[1], m[0], 0) == m[1];
    assert Eliminate(m, 1) == m;
    assert PivotRow(m, 1) == 1;
    assert SwapRows(m, 1, 1) == m;
    PivotStepAt(m, 1, 0);
    PivotStepAt(m, 1, 1);
  }

  lemma {:induction false} ZeroComponentSubstitutes()
    ensures BackSubst([[1.0, 0.0, 0.0], [0.0, 1.0, 1.0]]) == Some([0.0, 1.0])
  {
    var m := [[1.0, 0.0, 0.0], [0.0, 1.0, 1.0]];
    assert SolveFrom(m, 2) == Some([]);
    assert Dot(m[1][2..2], []) == 0.0;
    SolveFromAt(m, 1, [], 0.0);
    assert [1.0] + [] == [1.0];
    assert Dot(m[0][1..2], [1.0]) == 0.0;
    SolveFromAt(m, 0, [1.0], 0.0);
    assert [0.0] + [1.0] == [0.0, 1.0];
  }

  /** x = 0, y = 1 is the one and only solution. */
  lemma {:induction false} ZeroComponentIsTheSolution()
    ensures Solves([[1.0, 0.0, 0.0], [0.0, 1.0, 1.0]], [0.0, 1.0])
    ensures forall y :: Solves([[1.0, 0.0, 0.0], [0.0, 1.0, 1.0]], y) ==> y == [0.0, 1.0]
  {
    var m := [[1.0, 0.0, 0.0], [0.0, 1.0, 1.0]];
    forall y | |y| == 2 ensures Dot(m[0][..2], y) == y[0] && Dot(m[1][..2], y) == y[1] {
      assert Dot(m[0][..2][1..], y[1..]) == 0.0 * y[1] + Dot([], []);
      assert Dot(m[1][..2][1..], y[1..]) == 1.0 * y[1] + Dot([], []);
    }
    assert RowSolved(m, [0.0, 1.0], 0) && RowSolved(m, [0.0, 1.0], 1);
    forall y | Solves(m, y) ensures y == [0.0, 1.0] {
      assert RowSolved(m, y, 0) && RowSolved(m, y, 1);
    }
  }

  /** The exact-zero test for infinitely many solutions misreports a system
      whose one solution has a component equal to 0.0: x = 0, y = 1 is
      the only solution, yet the verdict is infinitely many. */
  lemma {:induction false} ZeroComponentReadsAsInfinite()
    ensures Classify(BackSubst(Eliminate([[1.0, 0.0, 0.0], [0.0, 1.0, 1.0]], 2))) == Infinite
    ensures Solves([[1.0, 0.0, 0.0], [0.0, 1.0, 1.0]], [0.0, 1.0])
    ensures forall y :: Solves([[1.0, 0.0, 0.0], [0.0, 1.0, 1.0]], y) ==> y == [0.0, 1.0]
  {
    ZeroComponentEliminates();
    ZeroComponentSubstitutes();
    assert HasZero([0.0, 1.0]) by { assert [0.0, 1.0][0] == 0.0; }
    ZeroComponentIsTheSolution();
  }

  // ---------------------------------------------------------------------
  // A pivot below the tolerance

  /** 1e-9 x = 1 has the solution x = 1e9, but its pivot is within EPSILON
      of zero and the residual is not, so the verdict is no solution. */
  lemma {:induction false} TinyPivotReadsAsInconsistent()
    ensures Classify(BackSubst(Eliminate([[0.000000001, 1.0]], 1))) == Inconsistent
    ensures Solves([[0.000000001, 1.0]], [1000000000.0])
  {
    var m := [[0.000000001, 1.0]];
    assert PivotRow(m, 0) == 0;
    assert SwapRows(m, 0, 0) == m;
    assert Eliminate(m, 1) == m;
    assert SolveFrom(m, 1) == Some([]);
    assert Dot(m[0][1..1], []) == 0.0;
    assert SolveFrom(m, 0) == None;
    assert Dot(m[0][..1], [1000000000.0]) == 0.000000001 * 1000000000.0 + Dot([], []);
    assert RowSolved(m, [1000000000.0], 0);
  }

  // ---------------------------------------------------------------------
  // No equations

  /** With no equations the solver reports the one, empty, solution. */
  lemma {:induction false} EmptySystemIsUnique()
    ensures Classify(BackSubst(Eliminate([], 0))) == Unique([])
  {
    assert SolveFrom([], 0) == Some([]);
  }
}

module WorkedExample {
  import opened Augmented
  import opened Elimination
  import opened Substitution

  /** 9x + 3y + 4z = 7, 4x + 3y + 4z = 8, x + y + z = 3. */
  const M: Matrix := [[9.0, 3.0, 4.0, 7.0], [4.0, 3.0, 4.0, 8.0], [1.0, 1.0, 1.0, 3.0]]
  /** After the first iteration: row 0 is the pivot row, no swap. */
  const E1: Matrix := [[9.0, 3.0, 4.0, 7.0], [0.0, 5.0 / 3.0, 20.0 / 9.0, 44.0 / 9.0], [0.0, 2.0 / 3.0, 5.0 / 9.0, 20.0 / 9.0]]
  /** After the second: row 1 stays the pivot row; the last iteration changes nothing. */
  const E2: Matrix := [[9.0, 3.0, 4.0, 7.0], [0.0, 5.0 / 3.0, 20.0 / 9.0, 44.0 / 9.0], [0.0, 0.0, -1.0 / 3.0, 4.0 / 15.0]]

  lemma {:induction false} FirstIteration()
    ensures EliminationStep(M, 0) == E1
  {
    assert PivotRow(M, 0) == 0;
    assert SwapRows(M, 0, 0) == M;
    assert Abs(M[0][0]) > EPSILON;
    PivotStepAt(M, 0, 0);
    PivotStepAt(M, 0, 1);
    PivotStepAt(M, 0, 2);
    assert ReduceRow(M[1], M[0], 0) == E1[1];
    assert ReduceRow(M[2], M[0], 0) == E1[2];
  }

  lemma {:induction false} SecondIteration()
    ensures EliminationStep(E1, 1) == E2
  {
    assert PivotRow(E1, 1) == 1;
    assert SwapRows(E1, 1, 1) == E1;
    assert Abs(E1[1][1]) > EPSILON;
    PivotStepAt(E1, 1, 0);
    PivotStepAt(E1, 1, 1);
    PivotStepAt(E1, 1, 2);
    assert ReduceRow(E1[2], E1[1], 1) == E2[2];
  }

  lemma {:induction false} LastIteration()
    ensures EliminationStep(E2, 2) == E2
  {
    assert PivotRow(E2, 2) == 2;
    assert SwapRows(E2, 2, 2) == E2;
    assert Abs(E2[2][2]) > EPSILON;
    PivotStepAt(E2, 2, 0);
    PivotStepAt(E2, 2, 1);
    PivotStepAt(E2, 2, 2);
  }

  lemma {:induction false} WorkedExampleEliminates()
    ensures Eliminate(M, 3) == E2
  {
    FirstIteration();
    SecondIteration();
    LastIteration();
    assert Eliminate(M, 1) == E1;
    assert Eliminate(M, 2) == E2;
  }

  lemma {:induction false} DotOfThree(a: seq<real>, b: seq<real>)
    requires |a| == |b| == 3
    ensures Dot(a, b) == a[0] * b[0] + a[1] * b[1] + a[2] * b[2]
  {
    assert Dot(a[1..][1..], b[1..][1..]) == a[2] * b[2] + Dot([], []);
  }

  lemma {:induction false} DotOfTwo(a: seq<real>, b: seq<real>)
    requires |a| == |b| == 2
    ensures Dot(a, b) == a[0] * b[0] + a[1] * b[1]
  {
    assert Dot(a[1..], b[1..]) == a[1] * b[1] + Dot([], []);
  }

  lemma {:induction false} WorkedExampleSubstitutes()
    ensures BackSubst(E2) == Some([-0.2, 4.0, -0.8])
  {
    assert SolveFrom(E2, 3) == Some([]);
    assert Dot(E2[2][3..3], []) == 0.0;
    SolveFromAt(E2, 2, [], 0.0);
    assert [-0.8] + [] == [-0.8];
    assert Dot(E2[1][2..3], [-0.8]) == -16.0 / 9.0;
    SolveFromAt(E2, 1, [-0.8], -16.0 / 9.0);
    assert [4.0] + [-0.8] == [4.0, -0.8];
    DotOfTwo(E2[0][1..3], [4.0, -0.8]);
    SolveFromAt(E2, 0, [4.0, -0.8], 8.8);
    assert [-0.2] + [4.0, -0.8] == [-0.2, 4.0, -0.8];
  }

  /** The worked example: one solution, x = -0.2, y = 4, z = -0.8,
      and (in exact arithmetic) it solves the system. */
  lemma {:induction false} WorkedExampleIsUnique()
    ensures Classify(BackSubst(Eliminate(M, 3))) == Unique([-0.2, 4.0, -0.8])
    ensures Solves(M, [-0.2, 4.0, -0.8])
  {
    WorkedExampleEliminates();
    WorkedExampleSubstitutes();
    assert !HasZero([-0.2, 4.0, -0.8]);
    WorkedExampleSolves();
  }

  lemma {:induction false} WorkedExampleSolves()
    ensures Solves(M, [-0.2, 4.0, -0.8])
  {
    var x := [-0.2, 4.0, -0.8];
    DotOfThree(M[0][..3], x);
    DotOfThree(M[1][..3], x);
    DotOfThree(M[2][..3], x);
    assert RowSolved(M, x, 0) && RowSolved(M, x, 1) && RowSolved(M, x, 2);
  }
}
