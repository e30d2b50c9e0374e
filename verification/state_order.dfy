/**
 The fixed permutation matrix that both `rd_repr` methods of exp/make_exp.py
 use to reorder the four nucleotide states for the root-digger tool.

 Row `r` of `P` has its single one in column `Sigma(r)`, so `P` maps state
 `r` to state `Sigma(r)`, where `Sigma` is the 3-cycle 0 -> 3 -> 2 -> 0 that
 fixes 1.
 */
module StateOrder {
  import opened Linalg

  const P: Matrix := [
    [0.0, 0.0, 0.0, 1.0],
    [0.0, 1.0, 0.0, 0.0],
    [1.0, 0.0, 0.0, 0.0],
    [0.0, 0.0, 1.0, 0.0]
  ]

  /** Column of the one in row `r` of `P`. */
  function Sigma(r: nat): (c: nat)
    requires r < 4
    ensures c < 4
  {
    [3, 1, 0, 2][r]
  }

  /** Row of the one in column `c` of `P`. */
  function SigmaInv(c: nat): (r: nat)
    requires c < 4
    ensures r < 4
    ensures Sigma(r) == c
  {
    [2, 1, 3, 0][c]
  }

  /** The values of `Sigma` and its inverse, spelled out. */
  lemma SigmaValues()
    ensures Sigma(0) == 3 && Sigma(1) == 1 && Sigma(2) == 0 && Sigma(3) == 2
    ensures SigmaInv(0) == 2 && SigmaInv(1) == 1 && SigmaInv(2) == 3 && SigmaInv(3) == 0
    ensures forall k :: 0 <= k < 4 ==> SigmaInv(Sigma(k)) == k
  {
    var s := [3, 1, 0, 2];
    var t := [2, 1, 3, 0];
    assert s[0] == 3 && s[1] == 1 && s[2] == 0 && s[3] == 2;
    assert t[0] == 2 && t[1] == 1 && t[2] == 3 && t[3] == 0;
  }

  /** `P` is the permutation matrix of `Sigma`, and `P^T` that of its inverse. */
  lemma PermutationRows()
    ensures IsSquare(P, 4)
    ensures forall r :: 0 <= r < 4 ==> P[r] == Unit(4, Sigma(r))
    ensures forall i :: 0 <= i < 4 ==> Transpose(P, 4)[i] == Unit(4, SigmaInv(i))
  {
    assert P[0] == Unit(4, 3);
    assert P[1] == Unit(4, 1);
    assert P[2] == Unit(4, 0);
    assert P[3] == Unit(4, 2);
    var t := Transpose(P, 4);
    assert t[0] == Unit(4, 2);
    assert t[1] == Unit(4, 1);
    assert t[2] == Unit(4, 3);
    assert t[3] == Unit(4, 0);
  }
}
