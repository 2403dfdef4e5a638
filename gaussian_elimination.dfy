/** The solver object: it holds the augmented matrix, reduces it in place
    by forward elimination with partial pivoting, and classifies the system
    by back substitution. */
module Solver {
  import opened Augmented
  import opened Elimination
  import opened Substitution
  import opened Subscripts

  function Min(a: int, b: int): int
  {
    if a <= b then a else b
  }

  class GaussianElimination {
    /** The n x (n+1) augmented matrix; each element is one row. */
    var matrix: array<seq<real>>
    const numberOfEquations: nat
    const columns: nat
    /** The verdict reached on construction (the solver prints it). */
    var outcome: Outcome

    ghost predicate Valid()
      reads this, matrix
    {
      && columns == numberOfEquations + 1
      && matrix.Length == numberOfEquations
      && IsAugmented(matrix[..])
    }

    /** Builds the solver from the rows read in, eliminates, and classifies. */
    constructor (rows: Matrix)
      requires IsAugmented(rows)
      ensures Valid()
      ensures numberOfEquations == |rows|
      ensures fresh(matrix)
      ensures matrix[..] == Eliminate(rows, |rows|)
      ensures outcome == Classify(BackSubst(Eliminate(rows, |rows|)))
    {
      numberOfEquations := |rows|;
      columns := |rows| + 1;
      matrix := new seq<real>[|rows|](i requires 0 <= i < |rows| => rows[i]);
      outcome := Inconsistent;
      new;
      assert matrix[..] == rows;
      ForwardElimination();
      outcome := CheckSpecialCases();
    }

    /** Runs the elimination loop: for each p, choose the pivot row, swap it
        into place, and eliminate below it unless the pivot is within
        EPSILON of zero. */
    method ForwardElimination()
      requires Valid()
      modifies matrix
      ensures Valid()
      ensures matrix[..] == Eliminate(old(matrix[..]), numberOfEquations)
    {
      ghost var m0 := matrix[..];
      var p := 0;
      while p < Min(numberOfEquations, columns)
        invariant 0 <= p <= numberOfEquations
        invariant Valid()
        invariant matrix[..] == Eliminate(m0, p)
      {
        ghost var before := matrix[..];
        // the pivot row: the first row from p down with the largest magnitude
        var max := p;
        var i := p + 1;
        while i < numberOfEquations
          invariant p + 1 <= i <= numberOfEquations
          invariant p <= max < i
          invariant matrix[..] == before
          invariant ArgMaxFrom(before, p, i, max) == PivotRow(before, p)
        {
          if Abs(matrix[i][p]) > Abs(matrix[max][p]) {
            max := i;
          }
          i := i + 1;
        }
        assert max == PivotRow(before, p);
        Swap(p, max);
        // a pivot within EPSILON of zero is skipped
        if Abs(matrix[p][p]) > EPSILON {
          Pivot(p);
        }
        assert matrix[..] == EliminationStep(before, p);
        p := p + 1;
      }
    }

    /** Exchanges two rows. */
    method Swap(row1: nat, row2: nat)
      requires Valid() && row1 < numberOfEquations && row2 < numberOfEquations
      modifies matrix
      ensures Valid()
      ensures matrix[..] == SwapRows(old(matrix[..]), row1, row2)
    {
      var temp := matrix[row1];
      matrix[row1] := matrix[row2];
      matrix[row2] := temp;
    }

    /** Subtracts from each row below p the multiple of row p that clears
        column p; alpha is fixed before the row changes. */
    method Pivot(p: nat)
      requires Valid() && p < numberOfEquations && Abs(matrix[p][p]) > EPSILON
      modifies matrix
      ensures Valid()
      ensures matrix[..] == PivotStep(old(matrix[..]), p)
    {
      ghost var m0 := matrix[..];
      var i := p + 1;
      while i < numberOfEquations
        invariant p + 1 <= i <= numberOfEquations
        invariant matrix[..] == PivotFrom(m0, p, i)
      {
        ghost var done := matrix[..];
        PivotFromAt(m0, p, i, p);
        PivotFromAt(m0, p, i, i);
        var alpha := matrix[i][p] / matrix[p][p];
        assert alpha == m0[i][p] / m0[p][p];
        var j := p;
        while j < columns
          invariant p <= j <= columns
          invariant matrix[..] == done[i := matrix[i]]
          invariant |matrix[i]| == columns
          invariant forall c :: 0 <= c < columns ==>
            matrix[i][c] == if p <= c < j then m0[i][c] - alpha * m0[p][c] else m0[i][c]
        {
          matrix[i] := matrix[i][j := matrix[i][j] - alpha * matrix[p][j]];
          j := j + 1;
        }
        forall c | 0 <= c < columns ensures matrix[i][c] == ReduceRow(m0[i], m0[p], p)[c] {
        }
        assert matrix[i] == ReduceRow(m0[i], m0[p], p);
        i := i + 1;
      }
    }

    /** Solves from the bottom row up; returns null when a row whose pivot
        was skipped leaves a residual beyond EPSILON. */
    method BackSubstitution() returns (x: array?<real>)
      requires Valid()
      ensures x == null <==> BackSubst(matrix[..]).None?
      ensures x != null ==> fresh(x) && x[..] == BackSubst(matrix[..]).value
    {
      ghost var m := matrix[..];
      var sol := new real[numberOfEquations](_ => 0.0);
      var i: int := Min(columns - 2, numberOfEquations - 1);
      while i >= 0
        invariant -1 <= i < numberOfEquations
        invariant SolveFrom(m, i + 1).Some?
        invariant sol[i + 1..] == SolveFrom(m, i + 1).value
        invariant forall k :: 0 <= k <= i ==> sol[k] == 0.0
      {
        ghost var t := sol[i + 1..];
        var sum := RowSum(sol, i);
        SolveFromAt(m, i, t, sum);
        if Abs(matrix[i][i]) > EPSILON {
          sol[i] := (matrix[i][numberOfEquations] - sum) / matrix[i][i];
        } else if Abs(matrix[i][numberOfEquations] - sum) > EPSILON {
          StopPropagates(m, i, 0);
          return null;
        }
        assert sol[i..] == [sol[i]] + t;
        i := i - 1;
      }
      // The redundant-rows check runs over rows columns - 1 .. n - 1; with
      // columns == n + 1 that range is empty.
      assert columns - 1 == numberOfEquations;
      assert sol[..] == sol[0..];
      return sol;
    }

    /** The inner loop of back substitution: row i's coefficients right of
        the diagonal times the values already found. */
    method RowSum(x: array<real>, i: nat) returns (sum: real)
      requires Valid() && i < numberOfEquations == x.Length
      ensures sum == Dot(matrix[i][i + 1..numberOfEquations], x[i + 1..])
    {
      sum := 0.0;
      var j := i + 1;
      while j < columns - 1
        invariant i + 1 <= j <= numberOfEquations
        invariant sum == Dot(matrix[i][i + 1..j], x[i + 1..j])
      {
        DotExtend(matrix[i], x[..], i + 1, j);
        sum := sum + matrix[i][j] * x[j];
        j := j + 1;
      }
      assert x[i + 1..numberOfEquations] == x[i + 1..];
    }

    /** The system has a solution exactly when back substitution returns a
        vector. */
    method IsFeasible() returns (b: bool)
      requires Valid()
      ensures b <==> BackSubst(matrix[..]).Some?
    {
      var x := BackSubstitution();
      b := x != null;
    }

    /** Reports infinitely many solutions when some value is exactly zero. */
    method IsInfinite(x: array<real>) returns (b: bool)
      requires numberOfEquations <= x.Length
      ensures b <==> HasZero(x[..numberOfEquations])
    {
      var i := 0;
      while i < numberOfEquations
        invariant 0 <= i <= numberOfEquations
        invariant forall k :: 0 <= k < i ==> x[k] != 0.0
      {
        if x[i] == 0.0 {
          assert x[..numberOfEquations][i] == 0.0;
          return true;
        }
        i := i + 1;
      }
      return false;
    }

    /** No solution, infinitely many, or the one solution found. */
    method CheckSpecialCases() returns (o: Outcome)
      requires Valid()
      ensures o == Classify(BackSubst(matrix[..]))
    {
      var feasible := IsFeasible();
      if !feasible {
        return Inconsistent;
      }
      var x := BackSubstitution();
      var infinite := IsInfinite(x);
      assert x[..numberOfEquations] == x[..];
      if infinite {
        return Infinite;
      }
      return Unique(x[..]);
    }

    /** The subscript label of index i, one character per character of its
        decimal form. */
    method GenerateSubscript(i: int) returns (s: JString)
      ensures s == Subscript(i)
    {
      var digits := DecimalString(i);
      var sb: JString := [];
      var k := 0;
      while k < |digits|
        invariant 0 <= k <= |digits|
        invariant sb == ToSubscript(digits[..k])
      {
        assert digits[..k + 1][..k] == digits[..k];
        sb := sb + [SubscriptChar(digits[k])];
        k := k + 1;
      }
      assert digits[..k] == digits;
      return sb;
    }
  }
}
