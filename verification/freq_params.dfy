/**
 The stationary-frequency parameters of exp/make_exp.py (`class freq_params`).

 The Dirichlet draw `numpy.random.dirichlet([1, 1, 1, 1])` is an input: a
 vector of four non-negative reals (a draw lies on the probability simplex,
 but only non-negativity is needed here).
 */
module FreqParams {
  import opened Linalg
  import opened StateOrder

  /** `.001`, added to every frequency so that none is zero. */
  const FreqFloor: real := 0.001

  /** The generated frequency vector, `self._params`. */
  datatype FreqParams = FreqParams(params: Vector)

  /** Add the floor to every component. */
  function Floored(draw: Vector): (v: Vector)
    ensures |v| == |draw|
  {
    seq(|draw|, i requires 0 <= i < |draw| => draw[i] + FreqFloor)
  }

  /** `freq_params.__init__`: add the floor, then divide by the L1 norm. */
  function FromDraw(draw: Vector): (f: FreqParams)
    requires |draw| == 4
    requires forall i :: 0 <= i < 4 ==> 0.0 <= draw[i]
    ensures |f.params| == 4
    ensures forall i :: 0 <= i < 4 ==> 0.0 < f.params[i]
    ensures Sum(f.params) == 1.0
    ensures forall i, j :: 0 <= i < 4 && 0 <= j < 4 && draw[i] <= draw[j] ==> f.params[i] <= f.params[j]
    ensures Sum(draw) == 1.0 ==> forall i :: 0 <= i < 4 ==> f.params[i] == (draw[i] + FreqFloor) / 1.004
  {
    var shifted := Floored(draw);
    var norm := Norm1(shifted);
    NormalisedProof(draw, shifted, norm);
    forall i, j | 0 <= i < 4 && 0 <= j < 4 && draw[i] <= draw[j]
      ensures shifted[i] / norm <= shifted[j] / norm
    {
      DivMonotone(shifted[i], shifted[j], norm);
    }
    FreqParams(seq(4, i requires 0 <= i < 4 => shifted[i] / norm))
  }

  lemma DivMonotone(a: real, b: real, d: real)
    requires a <= b && 0.0 < d
    ensures a / d <= b / d
  {
    assert b / d - a / d == (b - a) / d;
  }

  lemma NormalisedProof(draw: Vector, shifted: Vector, norm: real)
    requires |draw| == 4
    requires forall i :: 0 <= i < 4 ==> 0.0 <= draw[i]
    requires shifted == Floored(draw) && norm == Norm1(shifted)
    ensures norm > 0.0
    ensures norm == Sum(draw) + 4.0 * FreqFloor
    ensures Sum(seq(4, i requires 0 <= i < 4 => shifted[i] / norm)) == 1.0
  {
    Norm1NonNegative(shifted);
    SumPositive(shifted);
    Sum4(shifted);
    Sum4(draw);
    SumDiv(shifted, norm);
  }

  /** `freq_params.rd_repr`: `numpy.inner(p, P)`, entry `j` being `p[Sigma(j)]`. */
  function RdRepr(f: FreqParams): (r: Vector)
    requires |f.params| == 4
    ensures r == [f.params[3], f.params[1], f.params[0], f.params[2]]
  {
    PermutationRows();
    var r := InnerVec(f.params, P, 4);
    forall j | 0 <= j < 4
      ensures r[j] == f.params[Sigma(j)]
    {
      DotUnitRight(4, Sigma(j), f.params);
    }
    SigmaValues();
    r
  }

  /** The reordered vector is still a distribution: the same multiset of frequencies, with the same sum. */
  lemma RdReprIsDistribution(f: FreqParams)
    requires |f.params| == 4
    ensures multiset(RdRepr(f)) == multiset(f.params)
    ensures Sum(RdRepr(f)) == Sum(f.params)
  {
    var p := f.params;
    var r := RdRepr(f);
    assert p == [p[0]] + [p[1]] + [p[2]] + [p[3]];
    assert r == [p[3]] + [p[1]] + [p[0]] + [p[2]];
    Sum4(p);
    Sum4(r);
  }
}
