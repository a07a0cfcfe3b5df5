/**
  The checks every kernel makes before touching the output buffer, and the
  naive triple-loop kernel that serves as the library's correctness oracle.
 */
module Gemm {
  import opened Wrappers
  import opened Layout
  import opened Tensors
  import opened Products

  /** Why a kernel refused its operands, in the order the kernels check. */
  datatype KernelError =
    | TransposeUnsupported
    | IncompatibleShapes(aCols: nat, bRows: nat)
    | OutputSizeMismatch(length: nat, expected: nat)

  /**
    The operand checks shared by all kernels: no transposes, A's columns match
    B's rows, and the output buffer has exactly rows(A) * cols(B) cells.
   */
  function CheckOperands(a: Tensor, aT: bool, b: Tensor, bT: bool, cLength: nat): (r: Outcome<KernelError>)
    ensures r.Pass? <==> !aT && !bT && a.cols == b.rows && a.rows * b.cols == cLength
    ensures aT || bT ==> r == Fail(TransposeUnsupported)
    ensures !aT && !bT && a.cols != b.rows ==> r == Fail(IncompatibleShapes(a.cols, b.rows))
    ensures !aT && !bT && a.cols == b.rows && a.rows * b.cols != cLength ==>
      r == Fail(OutputSizeMismatch(cLength, a.rows * b.cols))
  {
    if aT || bT then Fail(TransposeUnsupported)
    else if a.cols != b.rows then Fail(IncompatibleShapes(a.cols, b.rows))
    else if a.rows * b.cols != cLength then Fail(OutputSizeMismatch(cLength, a.rows * b.cols))
    else Pass
  }

  /** The buffer a kernel may write: compatible operands and an output of rows(A) * cols(B) cells. */
  predicate Writable(a: Tensor, b: Tensor, c: seq<int>)
  {
    Compatible(a, b) && |c| == a.rows * b.cols
  }

  /** `c'` is `c` with the full dot product of row i of A and column j of B added to every cell (i, j). */
  predicate Accumulated(a: Tensor, b: Tensor, c: seq<int>, c': seq<int>)
    requires Writable(a, b, c)
  {
    |c'| == |c| &&
    forall i: nat, j: nat :: i < a.rows && j < b.cols ==>
      c'[Idx(i, j, a.rows, b.cols)] == c[Idx(i, j, a.rows, b.cols)] + Dot(a, b, i, j, a.cols)
  }

  /**
    The naive kernel: after the operand checks, for every output row i,
    column j and shared index k in that order, adds A[i, k] * B[k, j] to
    C[i, j]. It accumulates into whatever the buffer held, so on a zeroed
    buffer it leaves the matrix product. A refused call leaves the buffer as
    it was.
   */
  method Sgemm(a: Tensor, aT: bool, b: Tensor, bT: bool, c: seq<int>) returns (outcome: Outcome<KernelError>, c': seq<int>)
    ensures outcome == CheckOperands(a, aT, b, bT, |c|)
    ensures outcome.Fail? ==> c' == c
    ensures outcome.Pass? ==> Writable(a, b, c) && Accumulated(a, b, c, c')
  {
    outcome := CheckOperands(a, aT, b, bT, |c|);
    if outcome.Fail? {
      return outcome, c;
    }
    var m, n, p := a.rows, a.cols, b.cols;
    CellsDistinct(m, p);
    c' := c;
    var i := 0;
    while i < m
      invariant i <= m && |c'| == |c|
      invariant forall r: nat, col: nat :: r < m && col < p ==>
        c'[Idx(r, col, m, p)] == if r < i then Run(Accumulate, c[Idx(r, col, m, p)], a, b, r, col, 0, n) else c[Idx(r, col, m, p)]
    {
      var j := 0;
      while j < p
        invariant j <= p && |c'| == |c|
        invariant forall r: nat, col: nat :: r < m && col < p ==>
          c'[Idx(r, col, m, p)] ==
            if r < i || (r == i && col < j) then Run(Accumulate, c[Idx(r, col, m, p)], a, b, r, col, 0, n)
            else c[Idx(r, col, m, p)]
      {
        var k := 0;
        while k < n
          invariant k <= n && |c'| == |c|
          invariant c'[Idx(i, j, m, p)] == Run(Accumulate, c[Idx(i, j, m, p)], a, b, i, j, 0, k)
          invariant forall r: nat, col: nat :: r < m && col < p && (r != i || col != j) ==>
            c'[Idx(r, col, m, p)] ==
              if r < i || (r == i && col < j) then Run(Accumulate, c[Idx(r, col, m, p)], a, b, r, col, 0, n)
              else c[Idx(r, col, m, p)]
        {
          c' := c'[Idx(i, j, m, p) := c'[Idx(i, j, m, p)] + a.data[Idx(i, k, m, n)] * b.data[Idx(k, j, n, p)]];
          k := k + 1;
        }
        j := j + 1;
      }
      i := i + 1;
    }
    forall r: nat, col: nat | r < m && col < p
      ensures c'[Idx(r, col, m, p)] == c[Idx(r, col, m, p)] + Dot(a, b, r, col, n)
    {
      RunAccumulateIsDot(c[Idx(r, col, m, p)], a, b, r, col, n);
    }
  }

  /** Two buffers that both hold `c` plus the matrix product are the same buffer: the oracle's result is unique. */
  lemma AccumulatedUnique(a: Tensor, b: Tensor, c: seq<int>, c1: seq<int>, c2: seq<int>)
    requires Writable(a, b, c) && Accumulated(a, b, c, c1) && Accumulated(a, b, c, c2)
    ensures c1 == c2
  {
    CellsDetermine(c1, c2, a.rows, b.cols);
  }
}
