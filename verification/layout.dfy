/**
  Row-major index arithmetic shared by every kernel: where cell (i, j) of a
  matrix with `width` columns lives in a flat buffer, why the indices the
  kernels compute stay in range, and how the output columns split into blocks
  of `BlockSize` columns.
 */
module Layout {

  /** The fixed tile size of every blocked kernel, and the granularity every dimension must respect. */
  const BlockSize: nat := 16

  lemma MulMonotone(x: nat, y: nat, w: nat)
    requires x <= y
    ensures x * w <= y * w
  {
  }

  /** Every cell of a rows x width matrix lies inside a buffer of rows * width cells. */
  lemma CellInRange(i: nat, j: nat, rows: nat, width: nat)
    requires i < rows && j < width
    ensures i * width + j < rows * width
  {
    MulMonotone(i + 1, rows, width);
  }

  /** A cell of an earlier row comes before every cell of a later row. */
  lemma RowBefore(i: nat, j: nat, row: nat, width: nat)
    requires i < row && j < width
    ensures i * width + j < row * width
  {
    MulMonotone(i + 1, row, width);
  }

  /**
    Flat position of cell (i, j) in a row-major buffer of a rows x width
    matrix; it always lies inside the buffer.
   */
  function Idx(i: nat, j: nat, rows: nat, width: nat): (pos: nat)
    requires i < rows && j < width
    ensures pos < rows * width
  {
    CellInRange(i, j, rows, width);
    i * width + j
  }

  /** Distinct cells of a row-major matrix occupy distinct flat positions. */
  lemma CellUnique(i: nat, j: nat, i': nat, j': nat, rows: nat, width: nat)
    requires i < rows && i' < rows && j < width && j' < width
    requires Idx(i, j, rows, width) == Idx(i', j', rows, width)
    ensures i == i' && j == j'
  {
    if i < i' {
      MulMonotone(i + 1, i', width);
      assert false;
    } else if i' < i {
      MulMonotone(i' + 1, i, width);
      assert false;
    }
  }

  /** The quantified form of `CellUnique`, for loops that update one cell and keep all others. */
  lemma CellsDistinct(rows: nat, width: nat)
    ensures forall i: nat, j: nat, i': nat, j': nat ::
      i < rows && i' < rows && j < width && j' < width && Idx(i, j, rows, width) == Idx(i', j', rows, width)
      ==> i == i' && j == j'
  {
    forall i: nat, j: nat, i': nat, j': nat |
      i < rows && i' < rows && j < width && j' < width && Idx(i, j, rows, width) == Idx(i', j', rows, width)
      ensures i == i' && j == j'
    {
      CellUnique(i, j, i', j', rows, width);
    }
  }

  /** Every flat position of a rows x width buffer is the position of some cell. */
  lemma CellOf(idx: nat, rows: nat, width: nat) returns (i: nat, j: nat)
    requires idx < rows * width
    ensures i < rows && j < width && Idx(i, j, rows, width) == idx
  {
    assert width > 0;
    i, j := idx / width, idx % width;
    assert idx == width * i + j;
    if i >= rows {
      MulMonotone(rows, i, width);
      assert false;
    }
  }

  /**
    Two buffers of a rows x width matrix that agree on every cell are equal:
    the cells cover every flat position.
   */
  lemma {:induction false} CellsDetermine(s: seq<int>, t: seq<int>, rows: nat, width: nat)
    requires |s| == rows * width && |t| == rows * width
    requires forall i: nat, j: nat :: i < rows && j < width ==> s[Idx(i, j, rows, width)] == t[Idx(i, j, rows, width)]
    ensures s == t
  {
    forall idx | 0 <= idx < |s|
      ensures s[idx] == t[idx]
    {
      var i, j := CellOf(idx, rows, width);
    }
  }

  /** A column block starts on a multiple of the block size inside the row. */
  predicate IsBlockStart(start: nat, width: nat)
  {
    start % BlockSize == 0 && start < width
  }

  /**
    When the width is a multiple of the block size, a block never runs past the
    end of the row, and the next block starts on a multiple of the block size.
   */
  lemma BlockFits(start: nat, width: nat)
    requires width % BlockSize == 0 && IsBlockStart(start, width)
    ensures start + BlockSize <= width && (start + BlockSize) % BlockSize == 0
  {
  }

  /**
    The output segment of a column block in one row holds exactly the cells of
    that row whose column lies in the block.
   */
  lemma SegmentCell(i: nat, j: nat, row: nat, start: nat, rows: nat, width: nat)
    requires i < rows && j < width && row < rows && width % BlockSize == 0 && IsBlockStart(start, width)
    requires Idx(row, start, rows, width) <= Idx(i, j, rows, width) < Idx(row, start, rows, width) + BlockSize
    ensures i == row && start <= j < start + BlockSize
  {
    BlockFits(start, width);
    if i < row {
      RowBefore(i, j, row, width);
      assert false;
    } else if row < i {
      RowBefore(row, start + BlockSize - 1, i, width);
      assert false;
    }
  }

  /** The quantified form of `SegmentCell`. */
  lemma SegmentCells(row: nat, start: nat, rows: nat, width: nat)
    requires row < rows && width % BlockSize == 0 && IsBlockStart(start, width)
    ensures forall i: nat, j: nat ::
      i < rows && j < width && Idx(row, start, rows, width) <= Idx(i, j, rows, width) < Idx(row, start, rows, width) + BlockSize
      ==> i == row && start <= j < start + BlockSize
  {
    forall i: nat, j: nat |
      i < rows && j < width && Idx(row, start, rows, width) <= Idx(i, j, rows, width) < Idx(row, start, rows, width) + BlockSize
      ensures i == row && start <= j < start + BlockSize
    {
      SegmentCell(i, j, row, start, rows, width);
    }
  }

  /**
    The bounds the tiled kernels rely on: with both the shared dimension `n`
    and the output width `p` multiples of the block size, the three indices of
    the innermost statement stay inside A (m x n), B (n x p) and C (m x p),
    and the B index the source writes as `tile*p + tile_row*p + col_block + el`
    is the cell (tile + tile_row, col_block + el).
   */
  lemma TiledIndicesInRange(m: nat, n: nat, p: nat, row: nat, colBlock: nat, tile: nat, tileRow: nat, el: nat)
    requires n % BlockSize == 0 && p % BlockSize == 0
    requires row < m && IsBlockStart(colBlock, p) && IsBlockStart(tile, n)
    requires tileRow < BlockSize && el < BlockSize
    ensures colBlock + el < p && tile + tileRow < n
    ensures row * p + colBlock + el == Idx(row, colBlock + el, m, p) < m * p
    ensures row * n + tile + tileRow == Idx(row, tile + tileRow, m, n) < m * n
    ensures tile * p + tileRow * p + colBlock + el == Idx(tile + tileRow, colBlock + el, n, p) < n * p
  {
    BlockFits(colBlock, p);
    BlockFits(tile, n);
  }

  /**
    The column-block starts `(0..width).step_by(BlockSize)` in iteration order:
    0, 16, ..., width - 16.
   */
  function ColumnBlocks(width: nat): (starts: seq<nat>)
    requires width % BlockSize == 0
    ensures |starts| * BlockSize == width
    ensures forall q :: 0 <= q < |starts| ==> starts[q] == q * BlockSize
  {
    if width == 0 then [] else ColumnBlocks(width - BlockSize) + [width - BlockSize]
  }

  /** The start of the column block that column j falls in. */
  function BlockOf(j: nat): nat
  {
    (j / BlockSize) * BlockSize
  }

  /**
    The column blocks partition the row: every column of a row lies in the block
    `BlockOf` names, that block is one of the starts, and every block a column
    lies in is that one block, so two distinct blocks never share a column.
   */
  lemma ColumnBlocksPartition(width: nat)
    requires width % BlockSize == 0
    ensures forall start: nat :: start in ColumnBlocks(width) ==> IsBlockStart(start, width)
    ensures forall j :: 0 <= j < width ==>
      BlockOf(j) in ColumnBlocks(width) && BlockOf(j) <= j < BlockOf(j) + BlockSize
    ensures forall start: nat, j: nat :: start in ColumnBlocks(width) && start <= j < start + BlockSize ==>
      BlockOf(j) == start
  {
    var starts := ColumnBlocks(width);
    forall j | 0 <= j < width
      ensures BlockOf(j) in starts && BlockOf(j) <= j < BlockOf(j) + BlockSize
    {
      var q := j / BlockSize;
      assert q < |starts|;
      assert starts[q] == BlockOf(j);
    }
  }
}
