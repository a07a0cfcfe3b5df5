/**
  What the kernels compute for one output cell. The reference is the dot
  product of a row of A with a column of B; the kernels' loops are described
  by `Run`, the value a cell holds after a run of writes of the products for
  shared indices lo .. hi-1, where each write either overwrites the cell
  (`Assign`, the `=` of the tiled kernels) or adds to it (`Accumulate`, the
  `+=` of the naive kernel).
 */
module Products {
  import opened Layout
  import opened Tensors

  /** A (m x n) and B (n x p) can be multiplied: A's column count is B's row count. */
  predicate Compatible(a: Tensor, b: Tensor)
  {
    a.cols == b.rows
  }

  /** How the innermost statement of a kernel combines a product with the cell it writes. */
  datatype WriteMode = Assign | Accumulate

  /** The cell's value after one write of product `v` over its current value. */
  function Apply(mode: WriteMode, current: int, v: int): int
  {
    match mode
    case Assign => v
    case Accumulate => current + v
  }

  /** The product of A[i, k] and B[k, j]: one term of output cell (i, j). */
  function Term(a: Tensor, b: Tensor, i: nat, k: nat, j: nat): int
    requires Compatible(a, b) && i < a.rows && k < a.cols && j < b.cols
  {
    a.data[Idx(i, k, a.rows, a.cols)] * b.data[Idx(k, j, b.rows, b.cols)]
  }

  /** The first `k` terms of the dot product of row i of A with column j of B. */
  function Dot(a: Tensor, b: Tensor, i: nat, j: nat, k: nat): int
    requires Compatible(a, b) && i < a.rows && j < b.cols && k <= a.cols
  {
    if k == 0 then 0 else Dot(a, b, i, j, k - 1) + Term(a, b, i, k - 1, j)
  }

  /** The value of cell (i, j), starting from `x`, after writing the terms for shared indices lo .. hi-1 in order. */
  function Run(mode: WriteMode, x: int, a: Tensor, b: Tensor, i: nat, j: nat, lo: nat, hi: nat): int
    requires Compatible(a, b) && i < a.rows && j < b.cols && lo <= hi <= a.cols
    decreases hi - lo
  {
    if hi == lo then x else Apply(mode, Run(mode, x, a, b, i, j, lo, hi - 1), Term(a, b, i, hi - 1, j))
  }

  /** A run of writes can be split at any point: the second part starts from what the first part left. */
  lemma {:induction false} RunSplit(mode: WriteMode, x: int, a: Tensor, b: Tensor, i: nat, j: nat, lo: nat, mid: nat, hi: nat)
    requires Compatible(a, b) && i < a.rows && j < b.cols && lo <= mid <= hi <= a.cols
    ensures Run(mode, x, a, b, i, j, lo, hi) == Run(mode, Run(mode, x, a, b, i, j, lo, mid), a, b, i, j, mid, hi)
    decreases hi - mid
  {
    if hi != mid {
      RunSplit(mode, x, a, b, i, j, lo, mid, hi - 1);
    }
  }

  /** Accumulating the terms 0 .. k-1 adds exactly the first k terms of the dot product to the starting value. */
  lemma {:induction false} RunAccumulateIsDot(x: int, a: Tensor, b: Tensor, i: nat, j: nat, k: nat)
    requires Compatible(a, b) && i < a.rows && j < b.cols && k <= a.cols
    ensures Run(Accumulate, x, a, b, i, j, 0, k) == x + Dot(a, b, i, j, k)
  {
    if k != 0 {
      RunAccumulateIsDot(x, a, b, i, j, k - 1);
    }
  }

  /**
    Overwriting keeps only the last term: a non-empty run of assignments leaves
    the term of its last shared index, whatever the cell held before; an empty
    run leaves the cell as it was.
   */
  lemma RunAssignIsLast(x: int, a: Tensor, b: Tensor, i: nat, j: nat, lo: nat, hi: nat)
    requires Compatible(a, b) && i < a.rows && j < b.cols && lo <= hi <= a.cols
    ensures lo < hi ==> Run(Assign, x, a, b, i, j, lo, hi) == Term(a, b, i, hi - 1, j)
    ensures lo == hi ==> Run(Assign, x, a, b, i, j, lo, hi) == x
  {
  }
}
