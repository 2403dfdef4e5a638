/** Forward elimination with partial pivoting, as functions of the matrix:
    one function per transformation the solver applies in place, and the
    lemmas that say what those transformations achieve. */
module Elimination {
  import opened Augmented

  /** The scan for the pivot row of column p: `best` is the row chosen so far
      and rows i.. are still to be looked at. A row replaces `best` only if
      its magnitude is strictly larger. */
  function ArgMaxFrom(m: Matrix, p: nat, i: nat, best: nat): (r: nat)
    requires IsAugmented(m) && p < |m| && p <= best < i <= |m|
    ensures p <= r < |m|
    decreases |m| - i
  {
    if i == |m| then best
    else ArgMaxFrom(m, p, i + 1, if Abs(m[i][p]) > Abs(m[best][p]) then i else best)
  }

  /** The pivot row of column p: the scan starts with row p itself. */
  function PivotRow(m: Matrix, p: nat): (r: nat)
    requires IsAugmented(m) && p < |m|
  {
    ArgMaxFrom(m, p, p + 1, p)
  }

  /** Exchanges rows r1 and r2. */
  function SwapRows(m: Matrix, r1: nat, r2: nat): (r: Matrix)
    requires r1 < |m| && r2 < |m|
    ensures |r| == |m| && r[r1] == m[r2] && r[r2] == m[r1]
    ensures forall k :: 0 <= k < |m| && k != r1 && k != r2 ==> r[k] == m[k]
  {
    m[r1 := m[r2]][r2 := m[r1]]
  }

  /** Row `row` minus alpha times `pivotRow` on columns p.., where alpha is
      fixed from column p before any entry changes; columns before p are
      left as they are. */
  function ReduceRow(row: seq<real>, pivotRow: seq<real>, p: nat): (r: seq<real>)
    requires |row| == |pivotRow| && p < |row| && pivotRow[p] != 0.0
    ensures |r| == |row|
    ensures r[p] == 0.0
    ensures forall j :: 0 <= j < p ==> r[j] == row[j]
  {
    var alpha := row[p] / pivotRow[p];
    seq(|row|, j requires 0 <= j < |row| => if j < p then row[j] else row[j] - alpha * pivotRow[j])
  }

  /** The inner loop of the pivot step after rows p+1..i-1 have been reduced. */
  function PivotFrom(m: Matrix, p: nat, i: nat): (r: Matrix)
    requires IsAugmented(m) && p < |m| && p < i <= |m| && Abs(m[p][p]) > EPSILON
    ensures |r| == |m|
    ensures forall k :: 0 <= k < |r| ==> |r[k]| == |m| + 1
    decreases i
  {
    if i == p + 1 then m else PivotFrom(m, p, i - 1)[i - 1 := ReduceRow(m[i - 1], m[p], p)]
  }

  /** Eliminates column p below the diagonal using row p. */
  function PivotStep(m: Matrix, p: nat): (r: Matrix)
    requires IsAugmented(m) && p < |m| && Abs(m[p][p]) > EPSILON
    ensures IsAugmented(r) && |r| == |m|
  {
    PivotFrom(m, p, |m|)
  }

  /** One iteration of the elimination loop: swap the pivot row into place,
      then eliminate below it unless the pivot is within EPSILON of zero. */
  function EliminationStep(m: Matrix, p: nat): (r: Matrix)
    requires IsAugmented(m) && p < |m|
    ensures IsAugmented(r) && |r| == |m|
  {
    var s := SwapRows(m, p, PivotRow(m, p));
    if Abs(s[p][p]) <= EPSILON then s else PivotStep(s, p)
  }

  /** The matrix after the first k iterations of the elimination loop. */
  function Eliminate(m: Matrix, k: nat): (r: Matrix)
    requires IsAugmented(m) && k <= |m|
    ensures IsAugmented(r) && |r| == |m|
  {
    if k == 0 then m else EliminationStep(Eliminate(m, k - 1), k - 1)
  }

  /** Column q is settled: either its pivot was used and everything below it
      is exactly zero, or the pivot was skipped and every entry from row q
      down is within EPSILON of zero. */
  ghost predicate Settled(m: Matrix, q: nat)
    requires IsAugmented(m) && q < |m|
  {
    || (Abs(m[q][q]) > EPSILON && forall i :: q < i < |m| ==> m[i][q] == 0.0)
    || (forall i :: q <= i < |m| ==> Abs(m[i][q]) <= EPSILON)
  }

  // ---------------------------------------------------------------------
  // Pivot choice

  lemma {:induction false} ArgMaxFromIsFirstMaximum(m: Matrix, p: nat, i: nat, best: nat)
    requires IsAugmented(m) && p < |m| && p <= best < i <= |m|
    requires forall k :: p <= k < i ==> Abs(m[k][p]) <= Abs(m[best][p])
    requires forall k :: p <= k < best ==> Abs(m[k][p]) < Abs(m[best][p])
    ensures var r := ArgMaxFrom(m, p, i, best);
      && (forall k :: p <= k < |m| ==> Abs(m[k][p]) <= Abs(m[r][p]))
      && (forall k :: p <= k < r ==> Abs(m[k][p]) < Abs(m[r][p]))
    decreases |m| - i
  {
    if i < |m| {
      ArgMaxFromIsFirstMaximum(m, p, i + 1, if Abs(m[i][p]) > Abs(m[best][p]) then i else best);
    }
  }

  /** The pivot row lies in [p, n), has the largest magnitude in column p
      among rows p.., and every row before it is strictly smaller: ties keep
      the lowest index. */
  lemma {:induction false} PivotRowIsFirstMaximum(m: Matrix, p: nat)
    requires IsAugmented(m) && p < |m|
    ensures var r := PivotRow(m, p);
      && p <= r < |m|
      && (forall k :: p <= k < |m| ==> Abs(m[k][p]) <= Abs(m[r][p]))
      && (forall k :: p <= k < r ==> Abs(m[k][p]) < Abs(m[r][p]))
  {
    ArgMaxFromIsFirstMaximum(m, p, p + 1, p);
  }

  // ---------------------------------------------------------------------
  // Row swap

  /** Swapping keeps the rows as a multiset and swapping a row with itself
      changes nothing. */
  lemma {:induction false} SwapRowsPermutes(m: Matrix, r1: nat, r2: nat)
    requires r1 < |m| && r2 < |m|
    ensures multiset(SwapRows(m, r1, r2)) == multiset(m)
    ensures SwapRows(m, r1, r1) == m
    ensures SwapRows(SwapRows(m, r1, r2), r1, r2) == m
  {
  }

  /** Exchanging two equations does not change the set of solutions. */
  lemma {:induction false} SwapRowsKeepsSolutions(m: Matrix, r1: nat, r2: nat, x: seq<real>)
    requires IsAugmented(m) && r1 < |m| && r2 < |m|
    ensures IsAugmented(SwapRows(m, r1, r2))
    ensures Solves(m, x) <==> Solves(SwapRows(m, r1, r2), x)
  {
    var s := SwapRows(m, r1, r2);
    if Solves(m, x) {
      forall i | 0 <= i < |s| ensures RowSolved(s, x, i) {
        var src := if i == r1 then r2 else if i == r2 then r1 else i;
        assert RowSolved(m, x, src);
      }
    }
    if Solves(s, x) {
      forall i | 0 <= i < |m| ensures RowSolved(m, x, i) {
        var src := if i == r1 then r2 else if i == r2 then r1 else i;
        assert RowSolved(s, x, src);
      }
    }
  }

  // ---------------------------------------------------------------------
  // Pivot step

  lemma {:induction false} PivotFromAt(m: Matrix, p: nat, i: nat, k: nat)
    requires IsAugmented(m) && p < |m| && p < i <= |m| && Abs(m[p][p]) > EPSILON && k < |m|
    ensures PivotFrom(m, p, i)[k] == if p < k < i then ReduceRow(m[k], m[p], p) else m[k]
    decreases i
  {
    if i > p + 1 && k != i - 1 {
      PivotFromAt(m, p, i - 1, k);
    }
  }

  /** Row k after the pivot step: rows up to p are kept, every later row is
      reduced by row p. */
  lemma {:induction false} PivotStepAt(m: Matrix, p: nat, k: nat)
    requires IsAugmented(m) && p < |m| && Abs(m[p][p]) > EPSILON && k < |m|
    ensures PivotStep(m, p)[k] == if k <= p then m[k] else ReduceRow(m[k], m[p], p)
  {
    PivotFromAt(m, p, |m|, k);
  }

  /** The pivot step leaves rows 0..p and columns 0..p-1 unchanged and makes
      column p exactly zero below the diagonal; each later row becomes the
      old row minus alpha times row p on columns p.., with alpha fixed from
      column p. */
  lemma {:induction false} PivotStepFrame(m: Matrix, p: nat)
    requires IsAugmented(m) && p < |m| && Abs(m[p][p]) > EPSILON
    ensures var r := PivotStep(m, p);
      && (forall i :: 0 <= i <= p ==> r[i] == m[i])
      && (forall i :: p < i < |m| ==> r[i][p] == 0.0)
      && (forall i, j :: p < i < |m| && 0 <= j < p ==> r[i][j] == m[i][j])
      && (forall i, j :: p < i < |m| && p <= j <= |m| ==>
            r[i][j] == m[i][j] - (m[i][p] / m[p][p]) * m[p][j])
  {
    forall i | 0 <= i < |m| {
      PivotStepAt(m, p, i);
    }
  }

  /** When the pivot row has zeros before column p, the reduced row is the
      old row minus alpha times the pivot row on every column. */
  lemma {:induction false} ReduceRowIsCombination(row: seq<real>, pivotRow: seq<real>, p: nat)
    requires |row| == |pivotRow| && p < |row| && pivotRow[p] != 0.0
    requires forall j :: 0 <= j < p ==> pivotRow[j] == 0.0
    ensures forall j :: 0 <= j < |row| ==>
      ReduceRow(row, pivotRow, p)[j] == row[j] - (row[p] / pivotRow[p]) * pivotRow[j]
  {
  }

  /** Given the pivot equation, a reduced row holds exactly when the row it
      came from does. */
  lemma {:induction false} ReducedRowSolved(m: Matrix, p: nat, i: nat, x: seq<real>)
    requires IsAugmented(m) && p < i < |m| && |x| == |m| && Abs(m[p][p]) > EPSILON
    requires forall j :: 0 <= j < p ==> m[p][j] == 0.0
    ensures RowSolved(m, x, p) ==> (RowSolved(PivotStep(m, p), x, i) <==> RowSolved(m, x, i))
  {
    var n := |m|;
    var row := PivotStep(m, p)[i];
    var alpha := m[i][p] / m[p][p];
    PivotStepAt(m, p, i);
    ReduceRowIsCombination(m[i], m[p], p);
    var a, c, b := m[i][..n], row[..n], m[p][..n];
    assert forall k :: 0 <= k < n ==> c[k] == a[k] - alpha * b[k];
    DotCombination(a, c, alpha, b, x);
    assert row[n] == m[i][n] - alpha * m[p][n];
  }

  /** Subtracting a multiple of a satisfied pivot row keeps every equation's
      truth value, once the pivot row is zero before column p. */
  lemma {:induction false} PivotStepKeepsSolutions(m: Matrix, p: nat, x: seq<real>)
    requires IsAugmented(m) && p < |m| && Abs(m[p][p]) > EPSILON
    requires forall j :: 0 <= j < p ==> m[p][j] == 0.0
    ensures Solves(m, x) <==> Solves(PivotStep(m, p), x)
  {
    var n := |m|;
    var r := PivotStep(m, p);
    if |x| == n {
      forall i | p < i < n
        ensures RowSolved(m, x, p) ==> (RowSolved(r, x, i) <==> RowSolved(m, x, i))
      {
        ReducedRowSolved(m, p, i, x);
      }
      if Solves(m, x) {
        forall i | 0 <= i < n ensures RowSolved(r, x, i) {
          PivotStepAt(m, p, i);
          assert RowSolved(m, x, i);
        }
      }
      if Solves(r, x) {
        assert RowSolved(m, x, p) by { PivotStepAt(m, p, p); assert RowSolved(r, x, p); }
        forall i | 0 <= i < n ensures RowSolved(m, x, i) {
          PivotStepAt(m, p, i);
          assert RowSolved(r, x, i);
        }
      }
    }
  }

  // ---------------------------------------------------------------------
  // The elimination loop

  /** Iteration p leaves the rows above p as they are. */
  lemma {:induction false} StepKeepsRowsAbove(m: Matrix, p: nat, i: nat)
    requires IsAugmented(m) && p < |m| && i < p
    ensures EliminationStep(m, p)[i] == m[i]
  {
    var s := SwapRows(m, p, PivotRow(m, p));
    if Abs(s[p][p]) > EPSILON {
      PivotStepAt(s, p, i);
    }
  }

  /** The row of m that SwapRows(m, r1, r2) puts at position i. */
  function SwapSource(r1: nat, r2: nat, i: nat): nat
  {
    if i == r1 then r2 else if i == r2 then r1 else i
  }

  /** In rows p.., iteration p changes the columns before p only by moving
      rows p.. among themselves. */
  lemma {:induction false} StepKeepsColumnsBefore(m: Matrix, p: nat, i: nat, q: nat)
    requires IsAugmented(m) && p < |m| && p <= i < |m| && q < p
    ensures var src := SwapSource(p, PivotRow(m, p), i);
      p <= src < |m| && EliminationStep(m, p)[i][q] == m[src][q]
  {
    PivotRowIsFirstMaximum(m, p);
    var s := SwapRows(m, p, PivotRow(m, p));
    if Abs(s[p][p]) > EPSILON {
      PivotStepAt(s, p, i);
    }
  }

  /** Iteration p keeps an earlier settled column settled. */
  lemma {:induction false} StepKeepsSettled(m: Matrix, p: nat, q: nat)
    requires IsAugmented(m) && q < p < |m| && Settled(m, q)
    ensures Settled(EliminationStep(m, p), q)
  {
    var n := |m|;
    var r := EliminationStep(m, p);
    StepKeepsRowsAbove(m, p, q);
    if Abs(m[q][q]) > EPSILON && forall i :: q < i < n ==> m[i][q] == 0.0 {
      forall i | q < i < n ensures r[i][q] == 0.0 {
        if i >= p {
          StepKeepsColumnsBefore(m, p, i, q);
        } else {
          StepKeepsRowsAbove(m, p, i);
        }
      }
    } else {
      forall i | q <= i < n ensures Abs(r[i][q]) <= EPSILON {
        if i >= p {
          StepKeepsColumnsBefore(m, p, i, q);
        } else {
          StepKeepsRowsAbove(m, p, i);
        }
      }
    }
  }

  /** Iteration p settles column p: a used pivot leaves zeros below it; a
      skipped one was the largest magnitude, so all from row p down are
      within EPSILON of zero. */
  lemma {:induction false} StepSettlesPivotColumn(m: Matrix, p: nat)
    requires IsAugmented(m) && p < |m|
    ensures Settled(EliminationStep(m, p), p)
  {
    var n := |m|;
    var piv := PivotRow(m, p);
    PivotRowIsFirstMaximum(m, p);
    var s := SwapRows(m, p, piv);
    if Abs(s[p][p]) <= EPSILON {
      forall i | p <= i < n ensures Abs(s[i][p]) <= EPSILON {
        assert s[i] == m[SwapSource(p, piv, i)];
      }
    } else {
      PivotStepFrame(s, p);
    }
  }

  /** Iteration p settles column p, and keeps every earlier column settled. */
  lemma {:induction false} StepSettles(m: Matrix, p: nat)
    requires IsAugmented(m) && p < |m|
    requires forall q :: 0 <= q < p ==> Settled(m, q)
    ensures forall q :: 0 <= q <= p ==> Settled(EliminationStep(m, p), q)
  {
    forall q | 0 <= q < p ensures Settled(EliminationStep(m, p), q) {
      StepKeepsSettled(m, p, q);
    }
    StepSettlesPivotColumn(m, p);
  }

  /** After k iterations the first k columns are settled. */
  lemma {:induction false} EliminateSettles(m: Matrix, k: nat)
    requires IsAugmented(m) && k <= |m|
    ensures forall q :: 0 <= q < k ==> Settled(Eliminate(m, k), q)
  {
    if k > 0 {
      EliminateSettles(m, k - 1);
      StepSettles(Eliminate(m, k - 1), k - 1);
    }
  }

  /** Rows above the current pivot are final: once k iterations are done,
      later iterations leave rows 0..k-1 as they are. */
  lemma {:induction false} EliminateKeepsFinishedRows(m: Matrix, k: nat, l: nat, i: nat)
    requires IsAugmented(m) && k <= l <= |m| && i < k
    ensures Eliminate(m, l)[i] == Eliminate(m, k)[i]
    decreases l - k
  {
    if k < l {
      EliminateKeepsFinishedRows(m, k + 1, l, i);
      StepKeepsRowsAbove(Eliminate(m, k), k, i);
    }
  }

  /** The fully eliminated matrix is in row-echelon form up to the tolerance:
      every entry below the diagonal is within EPSILON of zero, and exactly
      zero under every diagonal entry that exceeds EPSILON. */
  lemma {:induction false} EliminatedIsEchelon(m: Matrix)
    requires IsAugmented(m)
    ensures var e := Eliminate(m, |m|);
      && (forall i, q :: 0 <= q < i < |m| ==> Abs(e[i][q]) <= EPSILON)
      && (forall i, q :: 0 <= q < i < |m| && Abs(e[q][q]) > EPSILON ==> e[i][q] == 0.0)
  {
    var e := Eliminate(m, |m|);
    EliminateSettles(m, |m|);
    forall i, q | 0 <= q < i < |m| ensures Abs(e[i][q]) <= EPSILON {
      assert Settled(e, q);
    }
    forall i, q | 0 <= q < i < |m| && Abs(e[q][q]) > EPSILON ensures e[i][q] == 0.0 {
      assert Settled(e, q);
    }
  }

  /** An iteration that uses its pivot keeps the solutions, provided rows
      p.. are already zero in the columns before p. */
  lemma {:induction false} StepKeepsSolutions(a: Matrix, b: Matrix, p: nat, x: seq<real>)
    requires IsAugmented(a) && p < |a| && b == EliminationStep(a, p)
    requires forall i, q :: 0 <= q < p && q < i < |a| ==> a[i][q] == 0.0
    requires Abs(b[p][p]) > EPSILON
    ensures Solves(a, x) <==> Solves(b, x)
  {
    var piv := PivotRow(a, p);
    PivotRowIsFirstMaximum(a, p);
    var s := SwapRows(a, p, piv);
    SwapRowsKeepsSolutions(a, p, piv, x);
    assert Abs(s[p][p]) > EPSILON;
    forall j | 0 <= j < p ensures s[p][j] == 0.0 {
      assert s[p] == a[piv];
    }
    PivotStepKeepsSolutions(s, p, x);
  }

  /** Below a used pivot everything is exactly zero: if the first k diagonal
      entries exceed EPSILON after k iterations, those columns are zero
      below the diagonal. */
  lemma {:induction false} ZerosBelowUsedPivots(m: Matrix, k: nat)
    requires IsAugmented(m) && k <= |m|
    requires PivotsAbove(Eliminate(m, k), k)
    ensures forall i, q :: 0 <= q < k && q < i < |m| ==> Eliminate(m, k)[i][q] == 0.0
  {
    var e := Eliminate(m, k);
    EliminateSettles(m, k);
    forall i, q | 0 <= q < k && q < i < |m| ensures e[i][q] == 0.0 {
      assert Settled(e, q);
      assert Abs(e[q][q]) > EPSILON;
    }
  }

  /** A run whose first k diagonal entries exceed EPSILON had the first
      k-1 of them in place already after k-1 iterations. */
  lemma {:induction false} UsedPivotsBefore(m: Matrix, k: nat)
    requires IsAugmented(m) && 0 < k <= |m|
    requires PivotsAbove(Eliminate(m, k), k)
    ensures PivotsAbove(Eliminate(m, k - 1), k - 1)
  {
    var e := Eliminate(m, k);
    var prev := Eliminate(m, k - 1);
    forall q | 0 <= q < k - 1 ensures Abs(prev[q][q]) > EPSILON {
      EliminateKeepsFinishedRows(m, k - 1, k, q);
      assert Abs(e[q][q]) > EPSILON;
    }
  }

  /** Iteration k-1 keeps the solutions when it and all before it used
      their pivots. */
  lemma {:induction false} IterationKeepsSolutions(m: Matrix, k: nat, x: seq<real>)
    requires IsAugmented(m) && 0 < k <= |m|
    requires PivotsAbove(Eliminate(m, k), k)
    ensures Solves(Eliminate(m, k - 1), x) <==> Solves(Eliminate(m, k), x)
  {
    UsedPivotsBefore(m, k);
    ZerosBelowUsedPivots(m, k - 1);
    StepKeepsSolutions(Eliminate(m, k - 1), Eliminate(m, k), k - 1, x);
  }

  /** If every diagonal entry of the result exceeds EPSILON, every iteration
      used its pivot, and in exact arithmetic the eliminated system has
      exactly the solutions of the original one. */
  lemma {:induction false} EliminateKeepsSolutions(m: Matrix, k: nat, x: seq<real>)
    requires IsAugmented(m) && k <= |m|
    requires PivotsAbove(Eliminate(m, k), k)
    ensures Solves(m, x) <==> Solves(Eliminate(m, k), x)
  {
    if k > 0 {
      UsedPivotsBefore(m, k);
      EliminateKeepsSolutions(m, k - 1, x);
      IterationKeepsSolutions(m, k, x);
    }
  }

  // ---------------------------------------------------------------------
  // Idempotence

  /** On a matrix that is zero below the diagonal with every pivot beyond
      EPSILON, an iteration keeps row p as the pivot row and subtracts
      nothing. */
  lemma {:induction false} StepIdle(e: Matrix, p: nat)
    requires IsAugmented(e) && p < |e| && PivotsAbove(e, |e|)
    requires forall i, q :: 0 <= q < i < |e| ==> e[i][q] == 0.0
    ensures EliminationStep(e, p) == e
  {
    PivotRowIsFirstMaximum(e, p);
    var r := PivotRow(e, p);
    assert r == p;
    assert SwapRows(e, p, p) == e;
    assert Abs(e[p][p]) > EPSILON;
    forall k | 0 <= k < |e| ensures PivotStep(e, p)[k] == e[k] {
      PivotStepAt(e, p, k);
      if k > p {
        assert e[k][p] / e[p][p] == 0.0;
        assert ReduceRow(e[k], e[p], p) == e[k];
      }
    }
  }

  /** Running the first k iterations on such a matrix changes nothing. */
  lemma {:induction false} EliminateIdle(e: Matrix, k: nat)
    requires IsAugmented(e) && k <= |e| && PivotsAbove(e, |e|)
    requires forall i, q :: 0 <= q < i < |e| ==> e[i][q] == 0.0
    ensures Eliminate(e, k) == e
  {
    if k > 0 {
      EliminateIdle(e, k - 1);
      StepIdle(e, k - 1);
    }
  }

  /** Eliminating an already eliminated matrix whose pivots were all used
      gives the same matrix again. */
  lemma {:induction false} EliminateIdempotent(m: Matrix)
    requires IsAugmented(m) && PivotsAbove(Eliminate(m, |m|), |m|)
    ensures Eliminate(Eliminate(m, |m|), |m|) == Eliminate(m, |m|)
  {
    ZerosBelowUsedPivots(m, |m|);
    EliminateIdle(Eliminate(m, |m|), |m|);
  }
}
