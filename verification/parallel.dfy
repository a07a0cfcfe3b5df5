/**
  The thread-parallel tiled kernel. The library hands one column-block task per
  block start to a thread pool, and every task writes into the shared output
  buffer. Here the pool's choices are a parameter: `schedule` lists the block
  starts in the order their tasks take effect. Since each task writes only its
  own block's columns, and blocks never share a column, every schedule the pool
  can produce leaves the same buffer as the sequential tiled kernel.
 */
module Parallel {
  import opened Wrappers
  import opened Layout
  import opened Tensors
  import opened Products
  import opened Gemm
  import opened Tiled

  /**
    An order in which the pool may run the column-block tasks of an output
    `width` columns wide: only block starts, and every block start at least once.
   */
  predicate IsSchedule(schedule: seq<nat>, width: nat)
    requires width % BlockSize == 0
  {
    (forall s :: 0 <= s < |schedule| ==> schedule[s] in ColumnBlocks(width)) &&
    (forall start: nat :: start in ColumnBlocks(width) ==> start in schedule)
  }

  /**
    The parallel kernel: after the operand checks, runs the column-block task
    for each entry of `schedule`. Whatever the order, it leaves the buffer
    `LastWritten` describes, the same as `SgemmTiled`; a refused call leaves
    the buffer as it was.
   */
  method SgemmTiledPar(a: Tensor, aT: bool, b: Tensor, bT: bool, c: seq<int>, schedule: seq<nat>)
    returns (outcome: Outcome<KernelError>, c': seq<int>)
    requires IsSchedule(schedule, b.cols)
    ensures outcome == CheckOperands(a, aT, b, bT, |c|)
    ensures outcome.Fail? ==> c' == c
    ensures outcome.Pass? ==> Writable(a, b, c) && LastWritten(a, b, c, c')
  {
    outcome := CheckOperands(a, aT, b, bT, |c|);
    if outcome.Fail? {
      return outcome, c;
    }
    var m, n, p := a.rows, a.cols, b.cols;
    ColumnBlocksPartition(p);
    c' := c;
    var s := 0;
    while s < |schedule|
      invariant s <= |schedule| && |c'| == |c|
      invariant forall i: nat, j: nat :: i < m && j < p ==>
        c'[Idx(i, j, m, p)] ==
          if BlockOf(j) in schedule[..s] then Run(Assign, c[Idx(i, j, m, p)], a, b, i, j, 0, n) else c[Idx(i, j, m, p)]
    {
      var colBlock := schedule[s];
      var before := c';
      c' := ColumnBlockTask(Assign, a, b, before, colBlock);
      assert schedule[..s + 1] == schedule[..s] + [colBlock];
      forall i: nat, j: nat | i < m && j < p
        ensures c'[Idx(i, j, m, p)] ==
          if BlockOf(j) in schedule[..s + 1] then Run(Assign, c[Idx(i, j, m, p)], a, b, i, j, 0, n) else c[Idx(i, j, m, p)]
      {
        var x := c[Idx(i, j, m, p)];
        if InBlock(j, colBlock) {
          assert BlockOf(j) == colBlock;
          RunAssignIsLast(x, a, b, i, j, 0, n);
          RunAssignIsLast(before[Idx(i, j, m, p)], a, b, i, j, 0, n);
        } else {
          assert BlockOf(j) != colBlock;
        }
      }
      s := s + 1;
    }
    assert schedule[..|schedule|] == schedule;
    forall i: nat, j: nat | i < m && j < p
      ensures c'[Idx(i, j, m, p)] == Run(Assign, c[Idx(i, j, m, p)], a, b, i, j, 0, n)
    {
      assert BlockOf(j) in schedule;
    }
    AssignRunIsLastWritten(a, b, c, c');
  }
}
