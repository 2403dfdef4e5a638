/** Back substitution over the eliminated matrix, and the classification of
    its result into no solution, infinitely many, or one. */
module Substitution {
  import opened Augmented

  /** Back substitution for rows i..n-1, as the solver's descending loop
      computes them: each row subtracts the contribution of the values
      already found below it; a pivot beyond EPSILON yields the value, a
      skipped pivot with a residual beyond EPSILON stops with no solution,
      and a skipped pivot otherwise leaves the value at its initial 0.0. */
  function SolveFrom(m: Matrix, i: nat): (r: Option<seq<real>>)
    requires IsAugmented(m) && i <= |m|
    ensures r.Some? ==> |r.value| == |m| - i
    decreases |m| - i
  {
    if i == |m| then Some([])
    else
      match SolveFrom(m, i + 1)
      case None => None
      case Some(t) =>
        var n := |m|;
        var sum := Dot(m[i][i + 1..n], t);
        if Abs(m[i][i]) > EPSILON then Some([(m[i][n] - sum) / m[i][i]] + t)
        else if Abs(m[i][n] - sum) > EPSILON then None
        else Some([0.0] + t)
  }

  /** The solution vector back substitution produces, or None for "null". */
  function BackSubst(m: Matrix): Option<seq<real>>
    requires IsAugmented(m)
  {
    SolveFrom(m, 0)
  }

  /** The test row k puts on the values t = y[k..]: with its pivot beyond
      EPSILON, y[k] is the residual divided by the pivot; otherwise the
      residual is within EPSILON and y[k] is 0.0. */
  ghost predicate RowHoldsAt(m: Matrix, t: seq<real>, k: nat)
    requires IsAugmented(m) && k < |m| && |t| == |m| - k
  {
    var n := |m|;
    var sum := Dot(m[k][k + 1..n], t[1..]);
    if Abs(m[k][k]) > EPSILON then t[0] == (m[k][n] - sum) / m[k][k]
    else Abs(m[k][n] - sum) <= EPSILON && t[0] == 0.0
  }

  /** t, the values for rows i.., passes the test of every one of those rows. */
  ghost predicate SolvedFrom(m: Matrix, t: seq<real>, i: nat)
    requires IsAugmented(m) && i <= |m|
  {
    |t| == |m| - i && forall j :: 0 <= j < |t| ==> RowHoldsAt(m, t[j..], i + j)
  }

  /** Every entry below the diagonal is exactly zero. */
  ghost predicate UpperTriangular(m: Matrix)
    requires IsAugmented(m)
  {
    forall i, q :: 0 <= q < i < |m| ==> m[i][q] == 0.0
  }

  /** The vector has an entry that is exactly zero: the solver's test for
      infinitely many solutions. */
  predicate HasZero(x: seq<real>)
  {
    exists i :: 0 <= i < |x| && x[i] == 0.0
  }

  /** The solver's verdict on the result of back substitution. */
  function Classify(r: Option<seq<real>>): Outcome
  {
    match r
    case None => Inconsistent
    case Some(x) => if HasZero(x) then Infinite else Unique(x)
  }

  // ---------------------------------------------------------------------
  // What back substitution computes

  /** Passing the tests of rows i.. is passing the test of row i and, for
      the rest of the vector, the tests of rows i+1... */
  lemma {:induction false} SolvedFromStep(m: Matrix, t: seq<real>, i: nat)
    requires IsAugmented(m) && i < |m| && |t| == |m| - i
    ensures SolvedFrom(m, t, i) <==> RowHoldsAt(m, t, i) && SolvedFrom(m, t[1..], i + 1)
  {
    assert t[0..] == t;
    if SolvedFrom(m, t, i) {
      assert RowHoldsAt(m, t[0..], i + 0);
      forall j | 0 <= j < |t[1..]| ensures RowHoldsAt(m, t[1..][j..], (i + 1) + j) {
        assert t[1..][j..] == t[j + 1..];
        assert RowHoldsAt(m, t[j + 1..], i + (j + 1));
      }
    }
    if RowHoldsAt(m, t, i) && SolvedFrom(m, t[1..], i + 1) {
      forall j | 0 <= j < |t| ensures RowHoldsAt(m, t[j..], i + j) {
        if j > 0 {
          assert t[j..] == t[1..][j - 1..];
          assert RowHoldsAt(m, t[1..][j - 1..], (i + 1) + (j - 1));
        }
      }
    }
  }

  /** One row of the descending loop, given the values t below it and their
      accumulated contribution `sum`. */
  lemma {:induction false} SolveFromAt(m: Matrix, i: nat, t: seq<real>, sum: real)
    requires IsAugmented(m) && i < |m|
    requires SolveFrom(m, i + 1) == Some(t) && sum == Dot(m[i][i + 1..|m|], t)
    ensures Abs(m[i][i]) > EPSILON ==> SolveFrom(m, i) == Some([(m[i][|m|] - sum) / m[i][i]] + t)
    ensures Abs(m[i][i]) <= EPSILON && Abs(m[i][|m|] - sum) > EPSILON ==> SolveFrom(m, i) == None
    ensures Abs(m[i][i]) <= EPSILON && Abs(m[i][|m|] - sum) <= EPSILON ==> SolveFrom(m, i) == Some([0.0] + t)
  {
  }

  /** A result from row i passes row i's test, on top of the result from
      row i + 1. */
  lemma {:induction false} SolveFromHead(m: Matrix, i: nat)
    requires IsAugmented(m) && i < |m| && SolveFrom(m, i).Some?
    ensures SolveFrom(m, i + 1).Some?
    ensures SolveFrom(m, i).value[1..] == SolveFrom(m, i + 1).value
    ensures RowHoldsAt(m, SolveFrom(m, i).value, i)
  {
    var t := SolveFrom(m, i).value;
    var rest := SolveFrom(m, i + 1).value;
    assert t[1..] == rest;
  }

  /** Whatever the recursion yields passes every row test from row i down. */
  lemma {:induction false} SolveFromSound(m: Matrix, i: nat)
    requires IsAugmented(m) && i <= |m|
    ensures SolveFrom(m, i).Some? ==> SolvedFrom(m, SolveFrom(m, i).value, i)
    decreases |m| - i
  {
    if i < |m| && SolveFrom(m, i).Some? {
      SolveFromHead(m, i);
      SolveFromSound(m, i + 1);
      SolvedFromStep(m, SolveFrom(m, i).value, i);
    }
  }

  /** A vector passing every row test from row i down is what the recursion
      yields. */
  lemma {:induction false} SolveFromComplete(m: Matrix, i: nat, t: seq<real>)
    requires IsAugmented(m) && i <= |m|
    requires SolvedFrom(m, t, i)
    ensures SolveFrom(m, i) == Some(t)
    decreases |m| - i
  {
    if i == |m| {
      assert t == [];
    } else {
      SolvedFromStep(m, t, i);
      SolveFromComplete(m, i + 1, t[1..]);
      assert t == [t[0]] + t[1..];
    }
  }

  /** The recursion yields t exactly when t passes every row test from row i
      down. */
  lemma {:induction false} SolveFromIff(m: Matrix, i: nat, t: seq<real>)
    requires IsAugmented(m) && i <= |m|
    ensures SolveFrom(m, i) == Some(t) <==> SolvedFrom(m, t, i)
  {
    SolveFromSound(m, i);
    if SolvedFrom(m, t, i) {
      SolveFromComplete(m, i, t);
    }
  }

  /** Back substitution returns y exactly when y passes every row test. */
  lemma {:induction false} BackSubstIff(m: Matrix, y: seq<real>)
    requires IsAugmented(m)
    ensures BackSubst(m) == Some(y) <==> SolvedFrom(m, y, 0)
  {
    SolveFromIff(m, 0, y);
  }

  /** Back substitution returns null exactly when no vector passes every
      row test. */
  lemma {:induction false} BackSubstNone(m: Matrix)
    requires IsAugmented(m)
    ensures BackSubst(m).None? <==> forall y :: !SolvedFrom(m, y, 0)
  {
    if BackSubst(m).Some? {
      BackSubstIff(m, BackSubst(m).value);
    }
    forall y | SolvedFrom(m, y, 0) ensures BackSubst(m).Some? {
      BackSubstIff(m, y);
    }
  }

  /** Once a row stops the substitution, so does every run that reaches it. */
  lemma {:induction false} StopPropagates(m: Matrix, i: nat, k: nat)
    requires IsAugmented(m) && k <= i <= |m|
    requires SolveFrom(m, i).None?
    ensures SolveFrom(m, k).None?
    decreases i - k
  {
    if k < i {
      StopPropagates(m, i, k + 1);
    }
  }

  /** A value whose pivot was within EPSILON of zero is left at 0.0. */
  lemma {:induction false} SkippedPivotGivesZero(m: Matrix, y: seq<real>, k: nat)
    requires IsAugmented(m) && k < |m|
    requires BackSubst(m) == Some(y)
    requires Abs(m[k][k]) <= EPSILON
    ensures y[k] == 0.0
  {
    BackSubstIff(m, y);
    assert RowHoldsAt(m, y[k..], 0 + k);
  }

  /** Row i returns null: the values below it exist, its pivot is within
      EPSILON of zero, and its residual exceeds EPSILON. */
  ghost predicate StopsAt(m: Matrix, i: nat)
    requires IsAugmented(m) && i < |m|
  {
    var n := |m|;
    && SolveFrom(m, i + 1).Some?
    && Abs(m[i][i]) <= EPSILON
    && Abs(m[i][n] - Dot(m[i][i + 1..n], SolveFrom(m, i + 1).value)) > EPSILON
  }

  /** A substitution from row k that stops, stops at some row from k down. */
  lemma {:induction false} StoppingRowFrom(m: Matrix, k: nat)
    requires IsAugmented(m) && k <= |m|
    requires SolveFrom(m, k).None?
    ensures exists i :: k <= i < |m| && StopsAt(m, i)
    decreases |m| - k
  {
    if SolveFrom(m, k + 1).None? {
      StoppingRowFrom(m, k + 1);
    } else {
      assert StopsAt(m, k);
    }
  }

  /** Back substitution returns null exactly when some row has a skipped
      pivot and a residual beyond EPSILON once the values below it are in. */
  lemma {:induction false} NullIffStoppingRow(m: Matrix)
    requires IsAugmented(m)
    ensures BackSubst(m).None? <==> exists i :: 0 <= i < |m| && StopsAt(m, i)
  {
    if BackSubst(m).None? {
      StoppingRowFrom(m, 0);
    }
    forall i | 0 <= i < |m| && StopsAt(m, i) ensures BackSubst(m).None? {
      assert SolveFrom(m, i).None?;
      StopPropagates(m, i, 0);
    }
  }

  /** Whatever the matrix, the vector back substitution returns satisfies
      each row's equation exactly where the pivot exceeds EPSILON, and up to
      EPSILON, with the value 0.0, where it was skipped. */
  lemma {:induction false} RowEquationHolds(m: Matrix, y: seq<real>, i: nat)
    requires IsAugmented(m) && i < |m|
    requires BackSubst(m) == Some(y)
    ensures var n := |m|; var sum := Dot(m[i][i + 1..n], y[i + 1..]);
      && (Abs(m[i][i]) > EPSILON ==> m[i][i] * y[i] + sum == m[i][n])
      && (Abs(m[i][i]) <= EPSILON ==> Abs(m[i][n] - sum) <= EPSILON && y[i] == 0.0)
  {
    var n := |m|;
    BackSubstIff(m, y);
    assert RowHoldsAt(m, y[i..], 0 + i);
    assert y[i..][0] == y[i] && y[i..][1..] == y[i + 1..];
    if Abs(m[i][i]) > EPSILON {
      DivideOut(m[i][i], y[i], Dot(m[i][i + 1..n], y[i + 1..]), m[i][n]);
    }
  }

  /** With every pivot beyond EPSILON, no row can stop the substitution. */
  lemma {:induction false} AllPivotsSolve(m: Matrix, i: nat)
    requires IsAugmented(m) && i <= |m|
    requires PivotsAbove(m, |m|)
    ensures SolveFrom(m, i).Some?
    decreases |m| - i
  {
    if i < |m| {
      AllPivotsSolve(m, i + 1);
      assert Abs(m[i][i]) > EPSILON;
    }
  }

  // ---------------------------------------------------------------------
  // Triangular systems

  /** In a row that is zero before the diagonal, the dot product splits into
      the diagonal term and the part to its right. */
  lemma {:induction false} DotAroundDiagonal(m: Matrix, y: seq<real>, i: nat)
    requires IsAugmented(m) && |y| == |m| && i < |m|
    requires forall q :: 0 <= q < i ==> m[i][q] == 0.0
    ensures Dot(m[i][..|m|], y) == m[i][i] * y[i] + Dot(m[i][i + 1..|m|], y[i + 1..])
  {
    var n := |m|;
    var left, right := m[i][..i], [m[i][i]] + m[i][i + 1..n];
    assert m[i][..n] == left + right;
    assert y == y[..i] + ([y[i]] + y[i + 1..]);
    DotAppend(left, y[..i], right, [y[i]] + y[i + 1..]);
    DotZeros(left, y[..i]);
    DotAppend([m[i][i]], [y[i]], m[i][i + 1..n], y[i + 1..]);
    assert Dot([m[i][i]], [y[i]]) == m[i][i] * y[i] + Dot([], []);
  }

  /** In a triangular row with a pivot beyond EPSILON, the equation holds
      exactly when the value back substitution would compute is in place. */
  lemma {:induction false} TriangularRow(m: Matrix, y: seq<real>, i: nat)
    requires IsAugmented(m) && |y| == |m| && i < |m|
    requires forall q :: 0 <= q < i ==> m[i][q] == 0.0
    requires Abs(m[i][i]) > EPSILON
    ensures RowSolved(m, y, i) <==> RowHoldsAt(m, y[i..], i)
  {
    var n := |m|;
    DotAroundDiagonal(m, y, i);
    assert y[i..][0] == y[i] && y[i..][1..] == y[i + 1..];
    DivideOut(m[i][i], y[i], Dot(m[i][i + 1..n], y[i + 1..]), m[i][n]);
  }

  /** For a triangular matrix whose pivots all exceed EPSILON, a vector
      solves the system exactly when it passes every row test. */
  lemma {:induction false} TriangularSolves(m: Matrix, y: seq<real>)
    requires IsAugmented(m) && UpperTriangular(m) && PivotsAbove(m, |m|)
    ensures Solves(m, y) <==> SolvedFrom(m, y, 0)
  {
    if |y| == |m| {
      forall i | 0 <= i < |m| ensures RowSolved(m, y, i) <==> RowHoldsAt(m, y[i..], 0 + i) {
        TriangularRow(m, y, i);
      }
    }
  }

  /** For a triangular matrix whose pivots all exceed EPSILON, back
      substitution succeeds, its result solves the system, and it is the
      only solution. */
  lemma {:induction false} TriangularBackSubst(m: Matrix)
    requires IsAugmented(m) && UpperTriangular(m) && PivotsAbove(m, |m|)
    ensures BackSubst(m).Some?
    ensures Solves(m, BackSubst(m).value)
    ensures forall y :: Solves(m, y) ==> y == BackSubst(m).value
  {
    AllPivotsSolve(m, 0);
    var x := BackSubst(m).value;
    BackSubstIff(m, x);
    TriangularSolves(m, x);
    forall y | Solves(m, y) ensures y == x {
      TriangularSolves(m, y);
      BackSubstIff(m, y);
    }
  }
}
