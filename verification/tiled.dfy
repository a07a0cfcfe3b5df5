/**
  The cache-blocked kernels. Their loop nest is

    for col_block in (0..p).step_by(16)
      for row in 0..m
        for tile in (0..n).step_by(16)
          for tile_row in 0..16
            for el in 0..16
              C[row, col_block + el] <- A[row, tile + tile_row] * B[tile + tile_row, col_block + el]

  with one method per loop level. The levels are parametrised by the
  `WriteMode` of the innermost statement: the library's tiled kernels
  assign, so every cell ends up holding the single product of the last
  shared index; the corrected kernel accumulates and computes the product.
 */
module Tiled {
  import opened Wrappers
  import opened Layout
  import opened Tensors
  import opened Products
  import opened Gemm

  /** Column j lies in the block of `BlockSize` columns starting at `colBlock`. */
  predicate InBlock(j: nat, colBlock: nat)
  {
    colBlock <= j < colBlock + BlockSize
  }

  /**
    The innermost loop, `for el in 0..16`: writes the product of A[row, tile + tileRow]
    and B[tile + tileRow, j] into cell (row, j) for every column j of the block,
    using the source's own index expressions, and touches no other position.
   */
  method ElementLoop(mode: WriteMode, a: Tensor, b: Tensor, c: seq<int>, row: nat, colBlock: nat, tile: nat, tileRow: nat)
    returns (c': seq<int>)
    requires Writable(a, b, c) && row < a.rows && IsBlockStart(colBlock, b.cols) && IsBlockStart(tile, a.cols)
    requires tileRow < BlockSize
    ensures |c'| == |c|
    ensures forall j: nat :: InBlock(j, colBlock) ==> (j < b.cols &&
      c'[Idx(row, j, a.rows, b.cols)] == Apply(mode, c[Idx(row, j, a.rows, b.cols)], Term(a, b, row, tile + tileRow, j)))
    ensures forall idx :: 0 <= idx < |c| && !(Idx(row, colBlock, a.rows, b.cols) <= idx < Idx(row, colBlock, a.rows, b.cols) + BlockSize) ==>
      c'[idx] == c[idx]
  {
    var m, n, p := a.rows, a.cols, b.cols;
    BlockFits(colBlock, p);
    var start := Idx(row, colBlock, m, p);
    c' := c;
    var el := 0;
    while el < BlockSize
      invariant el <= BlockSize && |c'| == |c|
      invariant forall j: nat :: colBlock <= j < colBlock + el ==>
        c'[Idx(row, j, m, p)] == Apply(mode, c[Idx(row, j, m, p)], Term(a, b, row, tile + tileRow, j))
      invariant forall idx :: 0 <= idx < |c| && !(start <= idx < start + el) ==> c'[idx] == c[idx]
    {
      TiledIndicesInRange(m, n, p, row, colBlock, tile, tileRow, el);
      var product := a.data[row * n + tile + tileRow] * b.data[tile * p + tileRow * p + colBlock + el];
      c' := c'[row * p + colBlock + el := Apply(mode, c'[row * p + colBlock + el], product)];
      el := el + 1;
    }
  }

  /**
    `for tile_row in 0..16`: runs the writes of the shared indices
    tile .. tile+15 over the block's cells of one output row.
   */
  method TileRowLoop(mode: WriteMode, a: Tensor, b: Tensor, c: seq<int>, row: nat, colBlock: nat, tile: nat)
    returns (c': seq<int>)
    requires Writable(a, b, c) && row < a.rows && IsBlockStart(colBlock, b.cols) && IsBlockStart(tile, a.cols)
    ensures |c'| == |c| && tile + BlockSize <= a.cols
    ensures forall j: nat :: InBlock(j, colBlock) ==> (j < b.cols &&
      c'[Idx(row, j, a.rows, b.cols)] == Run(mode, c[Idx(row, j, a.rows, b.cols)], a, b, row, j, tile, tile + BlockSize))
    ensures forall idx :: 0 <= idx < |c| && !(Idx(row, colBlock, a.rows, b.cols) <= idx < Idx(row, colBlock, a.rows, b.cols) + BlockSize) ==>
      c'[idx] == c[idx]
  {
    var m, n, p := a.rows, a.cols, b.cols;
    BlockFits(colBlock, p);
    BlockFits(tile, n);
    var start := Idx(row, colBlock, m, p);
    c' := c;
    var tileRow := 0;
    while tileRow < BlockSize
      invariant tileRow <= BlockSize && |c'| == |c|
      invariant forall j: nat :: InBlock(j, colBlock) ==>
        c'[Idx(row, j, m, p)] == Run(mode, c[Idx(row, j, m, p)], a, b, row, j, tile, tile + tileRow)
      invariant forall idx :: 0 <= idx < |c| && !(start <= idx < start + BlockSize) ==> c'[idx] == c[idx]
    {
      c' := ElementLoop(mode, a, b, c', row, colBlock, tile, tileRow);
      tileRow := tileRow + 1;
    }
  }

  /**
    `for tile in (0..n).step_by(16)`: runs the writes of every shared index,
    0 .. n-1 in order, over the block's cells of one output row.
   */
  method TileLoop(mode: WriteMode, a: Tensor, b: Tensor, c: seq<int>, row: nat, colBlock: nat)
    returns (c': seq<int>)
    requires Writable(a, b, c) && row < a.rows && IsBlockStart(colBlock, b.cols)
    ensures |c'| == |c|
    ensures forall j: nat :: InBlock(j, colBlock) ==> (j < b.cols &&
      c'[Idx(row, j, a.rows, b.cols)] == Run(mode, c[Idx(row, j, a.rows, b.cols)], a, b, row, j, 0, a.cols))
    ensures forall idx :: 0 <= idx < |c| && !(Idx(row, colBlock, a.rows, b.cols) <= idx < Idx(row, colBlock, a.rows, b.cols) + BlockSize) ==>
      c'[idx] == c[idx]
  {
    var m, n, p := a.rows, a.cols, b.cols;
    BlockFits(colBlock, p);
    var start := Idx(row, colBlock, m, p);
    c' := c;
    var tile := 0;
    while tile < n
      invariant tile % BlockSize == 0 && tile <= n && |c'| == |c|
      invariant forall j: nat :: InBlock(j, colBlock) ==>
        c'[Idx(row, j, m, p)] == Run(mode, c[Idx(row, j, m, p)], a, b, row, j, 0, tile)
      invariant forall idx :: 0 <= idx < |c| && !(start <= idx < start + BlockSize) ==> c'[idx] == c[idx]
    {
      BlockFits(tile, n);
      var before := c';
      c' := TileRowLoop(mode, a, b, before, row, colBlock, tile);
      forall j: nat | InBlock(j, colBlock)
        ensures c'[Idx(row, j, m, p)] == Run(mode, c[Idx(row, j, m, p)], a, b, row, j, 0, tile + BlockSize)
      {
        var x := c[Idx(row, j, m, p)];
        assert before[Idx(row, j, m, p)] == Run(mode, x, a, b, row, j, 0, tile);
        RunSplit(mode, x, a, b, row, j, 0, tile, tile + BlockSize);
      }
      tile := tile + BlockSize;
    }
  }

  /**
    One column-block task, `for row in 0..m` with the loops above: every cell
    of the block's columns ends up as the run of all its writes over its
    prior value, and no cell outside the block's columns changes. This is the
    unit the parallel kernel hands to each worker.
   */
  method ColumnBlockTask(mode: WriteMode, a: Tensor, b: Tensor, c: seq<int>, colBlock: nat) returns (c': seq<int>)
    requires Writable(a, b, c) && IsBlockStart(colBlock, b.cols)
    ensures |c'| == |c|
    ensures forall i: nat, j: nat :: i < a.rows && InBlock(j, colBlock) ==> (j < b.cols &&
      c'[Idx(i, j, a.rows, b.cols)] == Run(mode, c[Idx(i, j, a.rows, b.cols)], a, b, i, j, 0, a.cols))
    ensures forall i: nat, j: nat :: i < a.rows && j < b.cols && !InBlock(j, colBlock) ==>
      c'[Idx(i, j, a.rows, b.cols)] == c[Idx(i, j, a.rows, b.cols)]
  {
    var m, n, p := a.rows, a.cols, b.cols;
    BlockFits(colBlock, p);
    c' := c;
    var row := 0;
    while row < m
      invariant row <= m && |c'| == |c|
      invariant forall i: nat, j: nat :: i < m && j < p ==>
        c'[Idx(i, j, m, p)] ==
          if i < row && InBlock(j, colBlock) then Run(mode, c[Idx(i, j, m, p)], a, b, i, j, 0, n) else c[Idx(i, j, m, p)]
    {
      SegmentCells(row, colBlock, m, p);
      c' := TileLoop(mode, a, b, c', row, colBlock);
      row := row + 1;
    }
    assert forall j: nat :: InBlock(j, colBlock) ==> j < p;
  }

  /**
    The whole loop nest of a tiled kernel, column blocks in increasing order:
    every cell ends up as the run of all its writes over its prior value.
   */
  method TiledLoopNest(mode: WriteMode, a: Tensor, b: Tensor, c: seq<int>) returns (c': seq<int>)
    requires Writable(a, b, c)
    ensures |c'| == |c|
    ensures forall i: nat, j: nat :: i < a.rows && j < b.cols ==>
      c'[Idx(i, j, a.rows, b.cols)] == Run(mode, c[Idx(i, j, a.rows, b.cols)], a, b, i, j, 0, a.cols)
  {
    var m, n, p := a.rows, a.cols, b.cols;
    c' := c;
    var colBlock := 0;
    while colBlock < p
      invariant colBlock % BlockSize == 0 && colBlock <= p && |c'| == |c|
      invariant forall i: nat, j: nat :: i < m && j < p ==>
        c'[Idx(i, j, m, p)] == if j < colBlock then Run(mode, c[Idx(i, j, m, p)], a, b, i, j, 0, n) else c[Idx(i, j, m, p)]
    {
      BlockFits(colBlock, p);
      c' := ColumnBlockTask(mode, a, b, c', colBlock);
      colBlock := colBlock + BlockSize;
    }
  }

  /**
    What the library's tiled kernels leave in the output: when the shared
    dimension n is positive, cell (i, j) holds the single product
    A[i, n-1] * B[n-1, j] (the last write, from the last tile and last
    tile row), whatever it held before; when n is 0 nothing is written.
   */
  predicate LastWritten(a: Tensor, b: Tensor, c: seq<int>, c': seq<int>)
    requires Writable(a, b, c)
  {
    |c'| == |c| &&
    forall i: nat, j: nat :: i < a.rows && j < b.cols ==>
      c'[Idx(i, j, a.rows, b.cols)] ==
        if a.cols == 0 then c[Idx(i, j, a.rows, b.cols)] else Term(a, b, i, a.cols - 1, j)
  }

  /** Two buffers that both satisfy `LastWritten` for the same inputs are equal: the tiled result is determined. */
  lemma LastWrittenUnique(a: Tensor, b: Tensor, c: seq<int>, c1: seq<int>, c2: seq<int>)
    requires Writable(a, b, c) && LastWritten(a, b, c, c1) && LastWritten(a, b, c, c2)
    ensures c1 == c2
  {
    CellsDetermine(c1, c2, a.rows, b.cols);
  }

  /** A run of all writes in `Assign` mode is what `LastWritten` describes. */
  lemma AssignRunIsLastWritten(a: Tensor, b: Tensor, c: seq<int>, c': seq<int>)
    requires Writable(a, b, c) && |c'| == |c|
    requires forall i: nat, j: nat :: i < a.rows && j < b.cols ==>
      c'[Idx(i, j, a.rows, b.cols)] == Run(Assign, c[Idx(i, j, a.rows, b.cols)], a, b, i, j, 0, a.cols)
    ensures LastWritten(a, b, c, c')
  {
    forall i: nat, j: nat | i < a.rows && j < b.cols
      ensures c'[Idx(i, j, a.rows, b.cols)] ==
        if a.cols == 0 then c[Idx(i, j, a.rows, b.cols)] else Term(a, b, i, a.cols - 1, j)
    {
      RunAssignIsLast(c[Idx(i, j, a.rows, b.cols)], a, b, i, j, 0, a.cols);
    }
  }

  /**
    The library's tiled kernel: after the operand checks, the loop nest with
    `=` as its innermost statement. Every cell is overwritten by each product
    of its row and column in turn, so only the last one survives; a refused
    call leaves the buffer as it was.
   */
  method SgemmTiled(a: Tensor, aT: bool, b: Tensor, bT: bool, c: seq<int>) returns (outcome: Outcome<KernelError>, c': seq<int>)
    ensures outcome == CheckOperands(a, aT, b, bT, |c|)
    ensures outcome.Fail? ==> c' == c
    ensures outcome.Pass? ==> Writable(a, b, c) && LastWritten(a, b, c, c')
  {
    outcome := CheckOperands(a, aT, b, bT, |c|);
    if outcome.Fail? {
      return outcome, c;
    }
    c' := TiledLoopNest(Assign, a, b, c);
    AssignRunIsLastWritten(a, b, c, c');
  }

  /**
    The vector kernel on a machine without the wide-vector extension: the
    same checks and the same scalar loop nest as `SgemmTiled`, so it leaves
    the buffer in exactly the state `SgemmTiled` does.
   */
  method SgemmTiledSimd(a: Tensor, aT: bool, b: Tensor, bT: bool, c: seq<int>) returns (outcome: Outcome<KernelError>, c': seq<int>)
    ensures outcome == CheckOperands(a, aT, b, bT, |c|)
    ensures outcome.Fail? ==> c' == c
    ensures outcome.Pass? ==> Writable(a, b, c) && LastWritten(a, b, c, c')
  {
    outcome := CheckOperands(a, aT, b, bT, |c|);
    if outcome.Fail? {
      return outcome, c;
    }
    c' := TiledLoopNest(Assign, a, b, c);
    AssignRunIsLastWritten(a, b, c, c');
  }

  /**
    The tiled kernel with `+=` as its innermost statement: the same loop nest
    and checks, now leaving exactly what the naive kernel leaves, the prior
    contents plus the matrix product.
   */
  method SgemmTiledAccumulating(a: Tensor, aT: bool, b: Tensor, bT: bool, c: seq<int>)
    returns (outcome: Outcome<KernelError>, c': seq<int>)
    ensures outcome == CheckOperands(a, aT, b, bT, |c|)
    ensures outcome.Fail? ==> c' == c
    ensures outcome.Pass? ==> Writable(a, b, c) && Accumulated(a, b, c, c')
  {
    outcome := CheckOperands(a, aT, b, bT, |c|);
    if outcome.Fail? {
      return outcome, c;
    }
    c' := TiledLoopNest(Accumulate, a, b, c);
    forall i: nat, j: nat | i < a.rows && j < b.cols
      ensures c'[Idx(i, j, a.rows, b.cols)] == c[Idx(i, j, a.rows, b.cols)] + Dot(a, b, i, j, a.cols)
    {
      RunAccumulateIsDot(c[Idx(i, j, a.rows, b.cols)], a, b, i, j, a.cols);
    }
  }
}
