/** Shared vocabulary of the solver: the tolerance, the augmented matrix,
    dot products, exact solutions, and the three-way outcome. Java's
    `double` is modelled as `real`, so every fact proved here is a fact of
    exact arithmetic. */
module Augmented {

  /** The single tolerance below which a magnitude is treated as zero (1e-8). */
  const EPSILON: real := 0.00000001

  function Abs(x: real): (r: real)
    ensures r >= 0.0
    ensures r == x || r == -x
    ensures r >= x && r >= -x
  {
    if x < 0.0 then -x else x
  }

  datatype Option<T> = None | Some(value: T)

  /** The classification of a solved system. */
  datatype Outcome = Unique(x: seq<real>) | Infinite | Inconsistent

  /** Rows of the augmented matrix; column `|m|` holds the right-hand sides. */
  type Matrix = seq<seq<real>>

  /** An n x (n+1) augmented matrix. */
  ghost predicate IsAugmented(m: Matrix)
  {
    forall i :: 0 <= i < |m| ==> |m[i]| == |m| + 1
  }

  /** The first k diagonal entries exceed EPSILON: the first k pivots were
      used rather than skipped. */
  ghost predicate PivotsAbove(m: Matrix, k: nat)
    requires IsAugmented(m) && k <= |m|
  {
    forall q :: 0 <= q < k ==> Abs(m[q][q]) > EPSILON
  }

  /** Sum of a[k] * b[k], added from the front. */
  function Dot(a: seq<real>, b: seq<real>): real
    requires |a| == |b|
  {
    if |a| == 0 then 0.0 else a[0] * b[0] + Dot(a[1..], b[1..])
  }

  /** A dot product splits at any point of its operands. */
  lemma {:induction false} DotAppend(a: seq<real>, b: seq<real>, c: seq<real>, d: seq<real>)
    requires |a| == |b| && |c| == |d|
    ensures Dot(a + c, b + d) == Dot(a, b) + Dot(c, d)
  {
    if |a| == 0 {
      assert a + c == c && b + d == d;
    } else {
      assert (a + c)[0] == a[0] && (b + d)[0] == b[0];
      assert (a + c)[1..] == a[1..] + c;
      assert (b + d)[1..] == b[1..] + d;
      DotAppend(a[1..], b[1..], c, d);
    }
  }

  /** A sum accumulated from the left over a[lo..j] grows by the term at j. */
  lemma {:induction false} DotExtend(a: seq<real>, b: seq<real>, lo: nat, j: nat)
    requires lo <= j < |a| && j < |b|
    ensures Dot(a[lo..j + 1], b[lo..j + 1]) == Dot(a[lo..j], b[lo..j]) + a[j] * b[j]
  {
    assert a[lo..j + 1] == a[lo..j] + [a[j]];
    assert b[lo..j + 1] == b[lo..j] + [b[j]];
    DotAppend(a[lo..j], b[lo..j], [a[j]], [b[j]]);
    assert Dot([a[j]], [b[j]]) == a[j] * b[j] + Dot([], []);
  }

  /** A coefficient vector that is zero everywhere contributes nothing. */
  lemma {:induction false} DotZeros(a: seq<real>, b: seq<real>)
    requires |a| == |b|
    requires forall k :: 0 <= k < |a| ==> a[k] == 0.0
    ensures Dot(a, b) == 0.0
  {
    if |a| > 0 {
      DotZeros(a[1..], b[1..]);
    }
  }

  /** The dot product is linear in its first operand. */
  lemma {:induction false} DotCombination(a: seq<real>, c: seq<real>, alpha: real, b: seq<real>, x: seq<real>)
    requires |a| == |b| == |c| == |x|
    requires forall k :: 0 <= k < |a| ==> c[k] == a[k] - alpha * b[k]
    ensures Dot(c, x) == Dot(a, x) - alpha * Dot(b, x)
  {
    if |a| > 0 {
      DotCombination(a[1..], c[1..], alpha, b[1..], x[1..]);
      assert c[0] * x[0] == a[0] * x[0] - alpha * (b[0] * x[0]);
    }
  }

  /** Solving d * y + s == b for y. */
  lemma {:induction false} DivideOut(d: real, y: real, s: real, b: real)
    requires d != 0.0
    ensures d * y + s == b <==> y == (b - s) / d
  {
    if y == (b - s) / d {
      assert d * y == d * ((b - s) / d) == b - s;
    }
    if d * y + s == b {
      assert y == (d * y) / d == (b - s) / d;
    }
  }

  /** Row i of `m` holds for x: its coefficients times x equal its right-hand side. */
  ghost predicate RowSolved(m: Matrix, x: seq<real>, i: nat)
    requires IsAugmented(m) && |x| == |m| && i < |m|
  {
    Dot(m[i][..|m|], x) == m[i][|m|]
  }

  /** x is an exact solution of the linear system that `m` represents. */
  ghost predicate Solves(m: Matrix, x: seq<real>)
    requires IsAugmented(m)
  {
    |x| == |m| && forall i :: 0 <= i < |m| ==> RowSolved(m, x, i)
  }
}
