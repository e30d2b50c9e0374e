/**
 The small part of numpy the parameter generators use, over exact reals:
 vectors and square matrices as sequences, `numpy.dot` of two vectors,
 `numpy.inner` (which pairs rows with rows, so `inner(A, B) == A * B^T`),
 the diagonal helpers and element-wise arithmetic.
 */
module Linalg {

  type Vector = seq<real>
  type Matrix = seq<seq<real>>

  /** `m` is an `n` by `n` matrix. */
  predicate IsSquare(m: Matrix, n: nat) {
    |m| == n && forall i :: 0 <= i < n ==> |m[i]| == n
  }

  /** Sum of the entries, accumulated from the left. */
  function Sum(v: Vector): real {
    if |v| == 0 then 0.0 else Sum(v[..|v| - 1]) + v[|v| - 1]
  }

  /** The four-entry sum written out. */
  lemma Sum4(v: Vector)
    requires |v| == 4
    ensures Sum(v) == v[0] + v[1] + v[2] + v[3]
  {
    assert v[..1][..0] == [];
    assert Sum(v[..1]) == v[0];
    assert v[..2][..1] == v[..1];
    assert Sum(v[..2]) == v[0] + v[1];
    assert v[..3][..2] == v[..2];
    assert Sum(v[..3]) == v[0] + v[1] + v[2];
  }

  /** `numpy.dot` of two vectors of the same length. */
  function Dot(a: Vector, b: Vector): real
    requires |a| == |b|
  {
    if |a| == 0 then 0.0 else Dot(a[..|a| - 1], b[..|b| - 1]) + a[|a| - 1] * b[|b| - 1]
  }

  /** The `k`-th standard basis vector of length `n`: a row of a permutation matrix. */
  function Unit(n: nat, k: nat): Vector
    requires k < n
  {
    seq(n, i => if i == k then 1.0 else 0.0)
  }

  function Ones(n: nat): Vector {
    seq(n, i => 1.0)
  }

  /** A basis vector on the left of a dot product selects one entry. */
  lemma {:induction false} DotUnitLeft(n: nat, k: nat, v: Vector)
    requires k < n && |v| == n
    ensures Dot(Unit(n, k), v) == v[k]
  {
    var u := Unit(n, k);
    if n - 1 == k {
      assert Dot(u[..n - 1], v[..n - 1]) == 0.0 by { DotZeroLeft(u[..n - 1], v[..n - 1]); }
    } else {
      assert u[..n - 1] == Unit(n - 1, k);
      DotUnitLeft(n - 1, k, v[..n - 1]);
    }
  }

  /** A basis vector on the right of a dot product selects one entry. */
  lemma {:induction false} DotUnitRight(n: nat, k: nat, v: Vector)
    requires k < n && |v| == n
    ensures Dot(v, Unit(n, k)) == v[k]
  {
    DotComm(v, Unit(n, k));
    DotUnitLeft(n, k, v);
  }

  lemma {:induction false} DotZeroLeft(z: Vector, v: Vector)
    requires |z| == |v|
    requires forall i :: 0 <= i < |z| ==> z[i] == 0.0
    ensures Dot(z, v) == 0.0
  {
    if |z| > 0 {
      DotZeroLeft(z[..|z| - 1], v[..|v| - 1]);
    }
  }

  lemma {:induction false} DotComm(a: Vector, b: Vector)
    requires |a| == |b|
    ensures Dot(a, b) == Dot(b, a)
  {
    if |a| > 0 {
      DotComm(a[..|a| - 1], b[..|b| - 1]);
    }
  }

  /** Dotting with the all-ones vector sums the entries. */
  lemma {:induction false} DotOnes(v: Vector)
    ensures Dot(v, Ones(|v|)) == Sum(v)
  {
    if |v| > 0 {
      assert Ones(|v|)[..|v| - 1] == Ones(|v| - 1);
      DotOnes(v[..|v| - 1]);
    }
  }

  /** Lowering one entry by `s` lowers the sum by `s`. */
  lemma {:induction false} SumUpdate(v: Vector, k: nat, s: real)
    requires k < |v|
    ensures Sum(v[k := v[k] - s]) == Sum(v) - s
  {
    var w := v[k := v[k] - s];
    if k == |v| - 1 {
      assert w[..|w| - 1] == v[..|v| - 1];
    } else {
      assert w[..|w| - 1] == v[..|v| - 1][k := v[k] - s];
      SumUpdate(v[..|v| - 1], k, s);
    }
  }

  /** `numpy.inner` of two matrices: entry `(i, j)` pairs row `i` of `a` with row `j` of `b`. */
  function Inner(a: Matrix, b: Matrix, n: nat): (r: Matrix)
    requires IsSquare(a, n) && IsSquare(b, n)
    ensures IsSquare(r, n)
  {
    seq(n, i requires 0 <= i < n => seq(n, j requires 0 <= j < n => Dot(a[i], b[j])))
  }

  /** `numpy.inner` of a vector with a matrix: entry `j` pairs `v` with row `j` of `b`. */
  function InnerVec(v: Vector, b: Matrix, n: nat): (r: Vector)
    requires |v| == n && IsSquare(b, n)
    ensures |r| == n
  {
    seq(n, j requires 0 <= j < n => Dot(v, b[j]))
  }

  /** `M.T`. */
  function Transpose(m: Matrix, n: nat): (r: Matrix)
    requires IsSquare(m, n)
    ensures IsSquare(r, n)
  {
    seq(n, i requires 0 <= i < n => seq(n, j requires 0 <= j < n => m[j][i]))
  }

  /** `numpy.dot(M, v)` for a column vector `v`, flattened. */
  function MatVec(m: Matrix, v: Vector, n: nat): (r: Vector)
    requires IsSquare(m, n) && |v| == n
    ensures |r| == n
  {
    seq(n, i requires 0 <= i < n => Dot(m[i], v))
  }

  /** `numpy.diag` of a matrix: its main diagonal. */
  function Diagonal(m: Matrix, n: nat): (r: Vector)
    requires IsSquare(m, n)
    ensures |r| == n
  {
    seq(n, i requires 0 <= i < n => m[i][i])
  }

  /** `numpy.diag` / `numpy.diagflat` of a vector: the diagonal matrix carrying it. */
  function DiagMatrix(v: Vector): (r: Matrix)
    ensures IsSquare(r, |v|)
  {
    seq(|v|, i requires 0 <= i < |v| => seq(|v|, j requires 0 <= j < |v| => if i == j then v[i] else 0.0))
  }

  /** Element-wise `a - b`. */
  function Sub(a: Matrix, b: Matrix, n: nat): (r: Matrix)
    requires IsSquare(a, n) && IsSquare(b, n)
    ensures IsSquare(r, n)
  {
    seq(n, i requires 0 <= i < n => seq(n, j requires 0 <= j < n => a[i][j] - b[i][j]))
  }

  /** Broadcast `m + c`. */
  function AddScalar(m: Matrix, c: real, n: nat): (r: Matrix)
    requires IsSquare(m, n)
    ensures IsSquare(r, n)
  {
    seq(n, i requires 0 <= i < n => seq(n, j requires 0 <= j < n => m[i][j] + c))
  }

  /** Absolute value of a real. */
  function Abs(x: real): real {
    if x < 0.0 then -x else x
  }

  /** `numpy.linalg.norm(v, 1)`: the sum of absolute values. */
  function Norm1(v: Vector): real {
    if |v| == 0 then 0.0 else Norm1(v[..|v| - 1]) + Abs(v[|v| - 1])
  }

  /** The L1 norm of a vector with non-negative entries is its plain sum. */
  lemma {:induction false} Norm1NonNegative(v: Vector)
    requires forall i :: 0 <= i < |v| ==> 0.0 <= v[i]
    ensures Norm1(v) == Sum(v)
  {
    if |v| > 0 {
      Norm1NonNegative(v[..|v| - 1]);
    }
  }

  /** Dividing every entry by `d` divides the sum by `d`. */
  lemma {:induction false} SumDiv(v: Vector, d: real)
    requires d != 0.0
    ensures Sum(seq(|v|, i requires 0 <= i < |v| => v[i] / d)) == Sum(v) / d
  {
    var w := seq(|v|, i requires 0 <= i < |v| => v[i] / d);
    if |v| > 0 {
      var v' := v[..|v| - 1];
      assert w[..|w| - 1] == seq(|v'|, i requires 0 <= i < |v'| => v'[i] / d);
      SumDiv(v', d);
    }
  }

  /** A vector with positive entries has a positive sum once non-empty. */
  lemma {:induction false} SumPositive(v: Vector)
    requires |v| > 0
    requires forall i :: 0 <= i < |v| ==> 0.0 < v[i]
    ensures Sum(v) > 0.0
  {
    if |v| > 1 {
      SumPositive(v[..|v| - 1]);
    }
  }
}
