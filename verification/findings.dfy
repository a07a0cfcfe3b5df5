/**
  The tiled kernels do not compute the matrix product. Their innermost
  statement assigns instead of adding, and it sits inside both the loop over
  tiles and the loop over rows of a tile, so each output cell keeps only the
  last product written to it, even when the shared dimension is a single
  block. All-ones operands make this concrete.
 */
module Findings {
  import opened Layout
  import opened Tensors
  import opened Products
  import opened Gemm
  import opened Tiled

  /** Every element of the tensor is 1. */
  predicate AllOnes(t: Tensor)
  {
    forall idx :: 0 <= idx < |t.data| ==> t.data[idx] == 1
  }

  /** A rows x cols tensor of ones. */
  function Ones(rows: nat, cols: nat): (t: Tensor)
    requires rows % BlockSize == 0 && cols % BlockSize == 0
    ensures t.rows == rows && t.cols == cols && AllOnes(t)
  {
    TensorView(rows, cols, seq(rows * cols, _ => 1))
  }

  /** For all-ones operands the first k terms of every dot product sum to k. */
  lemma {:induction false} AllOnesDot(a: Tensor, b: Tensor, i: nat, j: nat, k: nat)
    requires Compatible(a, b) && AllOnes(a) && AllOnes(b) && i < a.rows && j < b.cols && k <= a.cols
    ensures Dot(a, b, i, j, k) == k
  {
    if k != 0 {
      AllOnesDot(a, b, i, j, k - 1);
    }
  }

  /**
    With all-ones operands and a non-empty shared dimension n, the tiled
    kernels leave 1 in every cell, while the matrix product has n there.
   */
  lemma AllOnesTiledVersusOracle(a: Tensor, b: Tensor, c: seq<int>, c': seq<int>)
    requires Writable(a, b, c) && AllOnes(a) && AllOnes(b) && a.cols > 0 && LastWritten(a, b, c, c')
    ensures forall i: nat, j: nat :: i < a.rows && j < b.cols ==>
      c'[Idx(i, j, a.rows, b.cols)] == 1 && Dot(a, b, i, j, a.cols) == a.cols
  {
    forall i: nat, j: nat | i < a.rows && j < b.cols
      ensures c'[Idx(i, j, a.rows, b.cols)] == 1 && Dot(a, b, i, j, a.cols) == a.cols
    {
      AllOnesDot(a, b, i, j, a.cols);
    }
  }

  /**
    The divergence on the smallest inputs: for all-ones operands with a shared
    dimension above 1 (16 is the smallest the constructor accepts) and a
    zeroed output, whatever `SgemmTiled` returns holds 1 in cell (0, 0), where
    the matrix product holds n, so it is not the product.
   */
  lemma TiledCounterexample(a: Tensor, b: Tensor, c: seq<int>, c': seq<int>)
    requires Writable(a, b, c) && AllOnes(a) && AllOnes(b) && a.rows > 0 && a.cols > 1 && b.cols > 0
    requires forall idx :: 0 <= idx < |c| ==> c[idx] == 0
    requires LastWritten(a, b, c, c')
    ensures c'[0] == 1
    ensures !Accumulated(a, b, c, c')
  {
    AllOnesTiledVersusOracle(a, b, c, c');
    assert Idx(0, 0, a.rows, b.cols) == 0;
    assert c[0] + Dot(a, b, 0, 0, a.cols) == a.cols;
  }
}
