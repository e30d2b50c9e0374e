/**
 The substitution-rate parameters of exp/make_exp.py (`class subst_params`).

 The uniform draw `numpy.random.rand(4, 4)` is an input. Entries are exact
 reals; the decimal text that `indel_repr` and `rd_repr` join is modelled
 as the sequence of the twelve reals it prints.
 */
module SubstParams {
  import opened Linalg
  import opened StateOrder

  /** `1e-2`, added to every uniform draw so that no rate is zero. */
  const RateFloor: real := 0.01

  /** The generated matrix, `self._params`. */
  datatype SubstParams = SubstParams(params: Matrix)

  /** A continuous-time Markov generator on four states: positive off-diagonal rates, rows summing to zero. */
  predicate IsRateMatrix(m: Matrix) {
    && IsSquare(m, 4)
    && (forall i :: 0 <= i < 4 ==> Sum(m[i]) == 0.0)
    && (forall i, j :: 0 <= i < 4 && 0 <= j < 4 && i != j ==> 0.0 < m[i][j])
  }

  /**
   `subst_params.__init__`: add the floor, clear the diagonal with `diag(diag(.))`,
   then subtract `diagflat(dot(params, ones((4, 1))))`, the row sums, from the diagonal.
   */
  function FromDraw(draw: Matrix): (sp: SubstParams)
    requires IsSquare(draw, 4)
    ensures IsSquare(sp.params, 4)
    ensures forall i, j :: 0 <= i < 4 && 0 <= j < 4 && i != j ==> sp.params[i][j] == draw[i][j] + RateFloor
    ensures forall i :: 0 <= i < 4 ==> Sum(sp.params[i]) == 0.0
    ensures (forall i, j :: 0 <= i < 4 && 0 <= j < 4 ==> 0.0 <= draw[i][j]) ==> IsRateMatrix(sp.params)
  {
    var floored := AddScalar(draw, RateFloor, 4);
    var hollow := Sub(floored, DiagMatrix(Diagonal(floored, 4)), 4);
    var m := Sub(hollow, DiagMatrix(MatVec(hollow, Ones(4), 4)), 4);
    RowSumsVanish(hollow, m);
    SubstParams(m)
  }

  /** Subtracting each row's sum from its diagonal entry leaves every row summing to zero. */
  lemma RowSumsVanish(hollow: Matrix, m: Matrix)
    requires IsSquare(hollow, 4)
    requires m == Sub(hollow, DiagMatrix(MatVec(hollow, Ones(4), 4)), 4)
    ensures forall i :: 0 <= i < 4 ==> Sum(m[i]) == 0.0
  {
    var rows := MatVec(hollow, Ones(4), 4);
    forall i | 0 <= i < 4
      ensures Sum(m[i]) == 0.0
    {
      DotOnes(hollow[i]);
      assert rows[i] == Sum(hollow[i]);
      assert m[i] == hollow[i][i := hollow[i][i] - rows[i]];
      SumUpdate(hollow[i], i, rows[i]);
    }
  }

  /** Row of the `k`-th entry in the row-major listing of the off-diagonal cells. */
  function OffRow(k: nat): nat
    requires k < 12
  {
    k / 3
  }

  /** Column of the `k`-th entry in the row-major listing of the off-diagonal cells. */
  function OffCol(k: nat): nat
    requires k < 12
  {
    if k % 3 < k / 3 then k % 3 else k % 3 + 1
  }

  /** Position of the off-diagonal cell `(i, j)` in the row-major listing. */
  function OffIndex(i: nat, j: nat): nat
    requires i < 4 && j < 4 && i != j
  {
    3 * i + (if j < i then j else j - 1)
  }

  /** The listing is a bijection between `0..12` and the cells `(i, j)` with `i != j`. */
  lemma OffDiagonalListing()
    ensures forall k :: 0 <= k < 12 ==>
      OffRow(k) < 4 && OffCol(k) < 4 && OffRow(k) != OffCol(k) && OffIndex(OffRow(k), OffCol(k)) == k
    ensures forall i, j :: 0 <= i < 4 && 0 <= j < 4 && i != j ==>
      OffIndex(i, j) < 12 && OffRow(OffIndex(i, j)) == i && OffCol(OffIndex(i, j)) == j
  {
  }

  /** The listing is in row-major order: earlier positions hold lexicographically smaller cells. */
  lemma OffDiagonalRowMajor(k: nat, k': nat)
    requires k < k' < 12
    ensures OffRow(k) < OffRow(k') || (OffRow(k) == OffRow(k') && OffCol(k) < OffCol(k'))
  {
  }

  /**
   The double loop shared by both reprs: visit `(i, j)` row by row, skip the
   diagonal, append `m[i][j]`.
   */
  method OffDiagonal(m: Matrix) returns (p: Vector)
    requires IsSquare(m, 4)
    ensures |p| == 12
    ensures forall k :: 0 <= k < 12 ==> p[k] == m[OffRow(k)][OffCol(k)]
  {
    p := [];
    var i := 0;
    while i < 4
      invariant 0 <= i <= 4
      invariant |p| == 3 * i
      invariant forall k :: 0 <= k < |p| ==> p[k] == m[OffRow(k)][OffCol(k)]
    {
      var j := 0;
      while j < 4
        invariant 0 <= j <= 4
        invariant |p| == 3 * i + (if j <= i then j else j - 1)
        invariant forall k :: 0 <= k < |p| ==> p[k] == m[OffRow(k)][OffCol(k)]
      {
        if i != j {
          assert OffRow(|p|) == i && OffCol(|p|) == j;
          p := p + [m[i][j]];
        }
        j := j + 1;
      }
      i := i + 1;
    }
  }

  /** `indel_repr`: the twelve off-diagonal rates in row-major order. */
  method IndelRepr(sp: SubstParams) returns (p: Vector)
    requires IsSquare(sp.params, 4)
    ensures |p| == 12
    ensures forall i, j :: 0 <= i < 4 && 0 <= j < 4 && i != j ==> p[OffIndex(i, j)] == sp.params[i][j]
  {
    p := OffDiagonal(sp.params);
    OffDiagonalListing();
  }

  /** `numpy.inner(numpy.inner(P.T, M), P)`, which is `P^T * M^T * P^T`. */
  function RdMatrix(m: Matrix): (t: Matrix)
    requires IsSquare(m, 4)
    ensures IsSquare(t, 4)
  {
    PermutationRows();
    Inner(Inner(Transpose(P, 4), m, 4), P, 4)
  }

  /** Entry `(i, j)` of the reordered matrix is `M[Sigma(j)][SigmaInv(i)]`. */
  lemma RdMatrixEntries(m: Matrix)
    requires IsSquare(m, 4)
    ensures forall i, j :: 0 <= i < 4 && 0 <= j < 4 ==> RdMatrix(m)[i][j] == m[Sigma(j)][SigmaInv(i)]
  {
    PermutationRows();
    var pt := Transpose(P, 4);
    var x := Inner(pt, m, 4);
    forall i, k | 0 <= i < 4 && 0 <= k < 4
      ensures x[i][k] == m[k][SigmaInv(i)]
    {
      DotUnitLeft(4, SigmaInv(i), m[k]);
    }
    forall i, j | 0 <= i < 4 && 0 <= j < 4
      ensures RdMatrix(m)[i][j] == m[Sigma(j)][SigmaInv(i)]
    {
      DotUnitRight(4, Sigma(j), x[i]);
    }
  }

  /** `rd_repr`: the twelve off-diagonal entries of `RdMatrix`, row-major. */
  method RdRepr(sp: SubstParams) returns (p: Vector)
    requires IsSquare(sp.params, 4)
    ensures |p| == 12
    ensures forall k :: 0 <= k < 12 ==> p[k] == sp.params[Sigma(OffCol(k))][SigmaInv(OffRow(k))]
  {
    var tmp := RdMatrix(sp.params);
    p := OffDiagonal(tmp);
    RdMatrixEntries(sp.params);
  }

  /** Reordering twice gives the matrix back, although `Sigma` itself is a 3-cycle. */
  lemma RdMatrixInvolution(m: Matrix)
    requires IsSquare(m, 4)
    ensures RdMatrix(RdMatrix(m)) == m
  {
    RdMatrixEntries(m);
    RdMatrixEntries(RdMatrix(m));
    var t := RdMatrix(RdMatrix(m));
    SigmaValues();
    forall i | 0 <= i < 4
      ensures t[i] == m[i]
    {
      forall j | 0 <= j < 4
        ensures t[i][j] == m[i][j]
      {
        assert t[i][j] == RdMatrix(m)[Sigma(j)][SigmaInv(i)];
      }
    }
  }

  /** Because `inner` transposes, the columns of the reordered generator sum to zero. */
  lemma RdMatrixColumnsSumToZero(m: Matrix, j: nat)
    requires IsRateMatrix(m) && j < 4
    ensures Sum(seq(4, i requires 0 <= i < 4 => RdMatrix(m)[i][j])) == 0.0
  {
    RdMatrixEntries(m);
    var col := seq(4, i requires 0 <= i < 4 => RdMatrix(m)[i][j]);
    var row := m[Sigma(j)];
    Sum4(col);
    Sum4(row);
    assert col[0] == row[2] && col[1] == row[1] && col[2] == row[3] && col[3] == row[0];
  }

  /** ... and its rows need not: the reordered matrix is no longer a generator in row convention. */
  lemma RdMatrixRowsNeedNotSumToZero()
    ensures exists m :: IsRateMatrix(m) && Sum(RdMatrix(m)[0]) != 0.0
  {
    var m := [
      [-3.0, 1.0, 1.0, 1.0],
      [1.0, -3.0, 1.0, 1.0],
      [1.0, 1.0, -3.0, 1.0],
      [1.0, 1.0, 2.0, -4.0]
    ];
    Sum4(m[0]);
    Sum4(m[1]);
    Sum4(m[2]);
    Sum4(m[3]);
    assert IsRateMatrix(m);
    RdMatrixEntries(m);
    var row := RdMatrix(m)[0];
    Sum4(row);
    SigmaValues();
    assert row[0] == m[3][2] && row[1] == m[1][2] && row[2] == m[0][2] && row[3] == m[2][2];
  }
}
