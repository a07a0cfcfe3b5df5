# aml: dense matrix multiply, modelled in Dafny

`aml` is a small Rust library that multiplies row-major 2D buffers (GEMM:
C = A x B). It has a tensor view, `F32Tensor`, built by `F32Tensor::new`. It
also has four kernels with one signature,
`(a, a_t, b, b_t, c: &mut Vec<f32>)`:

- `sgemm` is the naive triple loop. It adds into `c`.
- `sgemm_tiled` is the cache-blocked loop nest. Its block size is 16.
- `sgemm_tiled_par` runs the same loop nest with one rayon task per block of 16 output columns.
- `sgemm_tiled_simd` chooses AVX at runtime and otherwise falls back to the scalar tiled loop nest.

This project models that code. It covers the shape checks at construction, the
operand checks that run before any write, and the index arithmetic and loop
semantics of each kernel. It then proves what each kernel leaves in the
output buffer.

Modules, one per component:

- `Wrappers` (`wrappers.dfy`): the `Result` and `Outcome` types that replace the source's panics.
- `Layout` (`layout.dfy`): the block size 16 and the row-major `Idx(i, j, rows, width) = i*width + j`. It also proves the index bounds the kernels rely on and that the column blocks partition a row.
- `Tensors` (`tensors.dfy`): `TensorView` and the `Tensor` subset type, meaning the views that `New` accepts, plus `New` itself.
- `Products` (`products.dfy`): what one output cell becomes. `Dot` is the oracle, the dot product of a row of A and a column of B. `Run(mode, x, …, lo, hi)` is the cell's value after the writes for shared indices `lo..hi-1`. Each write either assigns (`=`) or accumulates (`+=`).
- `Gemm` (`gemm.dfy`): the operand checks all kernels share, and the naive kernel.
- `Tiled` (`tiled.dfy`): one method per loop level of the tiled loop nest, the sequential tiled kernel, the scalar fallback of the SIMD kernel, and the corrected (accumulating) tiled kernel.
- `Parallel` (`parallel.dfy`): the parallel kernel. The thread pool's order of tasks is a parameter.
- `Findings` (`findings.dfy`): shows that the tiled kernels do not compute the product.

Elements are mathematical integers, so sums and products are exact. A kernel
takes the buffer `c` by value and returns the new buffer `c'` together with an
`Outcome`. When the checks fail, `c'` is `c`.

## Model

| member | source | states |
|---|---|---|
| Tensors.New | aml/src/lib.rs:20-39 | Construction succeeds iff the shape has rank 2, both dimensions are multiples of 16, and the data length equals their product. On success the tensor has exactly that shape and data. On failure the error names the first check that failed, in the source's order. |
| Tensors.ShapeProductOfPair | aml/src/lib.rs:33 | For a rank-2 shape, the left fold `fold(1, acc * next)` equals rows * cols. |
| Tensors.NewRoundTrip | aml/src/lib.rs:20-39 | Every tensor is exactly what `New` returns for its own data and shape. |
| Gemm.CheckOperands | aml/src/lib.rs:61-75 | The operands pass iff there is no transpose, A.cols == B.rows, and c.len() == A.rows * B.cols. Each failure is reported by the first failing check: transpose, then compatibility, then output size. |
| Gemm.Sgemm | aml/src/lib.rs:61-88 | The naive kernel runs the checks and leaves `c` unchanged when they fail. Otherwise it leaves every cell (i, j) holding its old value plus the full dot product of row i of A and column j of B, with the length unchanged. |
| Gemm.AccumulatedUnique | aml/src/lib.rs:81-87 | The buffer the naive kernel leaves is determined by its inputs. Two buffers that both hold old `c` plus the product are equal. |
| Layout.CellInRange | aml/src/lib.rs:81-87 | For i < rows and j < width, the index i*width + j is below rows*width. This bounds all three naive indices: `i*p+j < m*p`, `i*n+k < m*n` and `k*p+j < n*p`. |
| Layout.CellUnique | aml/src/lib.rs:84 | Different cells (i, j) of a row-major matrix have different flat indices. So a write to one output cell leaves every other cell alone. |
| Layout.BlockFits | aml/src/lib.rs:112-116 | If the width is a multiple of 16, a block that starts on a multiple of 16 below the width ends inside the row. The next block start is again a multiple of 16. |
| Layout.TiledIndicesInRange | aml/src/lib.rs:112-118 | Given n % 16 == 0 and p % 16 == 0, the three indices of the tiled statement are in range. They are `row*p + col_block + el < m*p`, `row*n + tile + tile_row < m*n` and `tile*p + tile_row*p + col_block + el < n*p`. The B index is cell (tile + tile_row, col_block + el). |
| Layout.SegmentCell | aml/src/lib.rs:117 | The 16 positions a column block writes in one output row are exactly the cells of that row whose column is in the block. |
| Layout.ColumnBlocks | aml/src/lib.rs:150-153 | `(0..p).step_by(16)` yields p/16 starts, and start q is 16*q. |
| Layout.ColumnBlocksPartition | aml/src/lib.rs:150-169 | Every start is a block start below p. Every column j < p lies in block `BlockOf(j)`, which is one of the starts. Any block that contains j is that block. So the column ranges [cb, cb+16) are pairwise disjoint and cover 0..p. |
| Products.RunSplit | aml/src/lib.rs:114-116 | The writes to a cell over the shared indices lo..hi can be split at any point. The later tiles start from what the earlier tiles left. |
| Products.RunAccumulateIsDot | aml/src/lib.rs:83-84 | Adding the products for k = 0..K-1 in turn adds exactly the first K terms of the dot product. |
| Products.RunAssignIsLast | aml/src/lib.rs:114-118 | Assigning the products for k = lo..hi-1 in turn leaves only the product for hi-1, whatever the cell held before. An empty run leaves the cell unchanged. |
| Tiled.ElementLoop | aml/src/lib.rs:116-119 | The `el` loop writes A[row, tile+tile_row] * B[tile+tile_row, j] into cell (row, j) for each of the block's 16 columns, using the source's index expressions. No other position of `c` changes. |
| Tiled.TileRowLoop | aml/src/lib.rs:115-120 | The `tile_row` loop applies the writes for shared indices tile..tile+15, in order, to the block's cells of one row. Nothing else changes. |
| Tiled.TileLoop | aml/src/lib.rs:114-121 | The `tile` loop applies the writes for every shared index 0..n-1, in order, to the block's cells of one row. Nothing else changes. |
| Tiled.ColumnBlockTask | aml/src/lib.rs:154-168 | One column-block task sets every cell in the block's columns to the result of all its writes over its prior value. No cell outside those columns changes. |
| Tiled.TiledLoopNest | aml/src/lib.rs:112-123 | The full loop nest sets every cell of `c` to the result of all its writes over its prior value. |
| Tiled.AssignRunIsLastWritten | aml/src/lib.rs:117 | When the innermost statement assigns, running all writes leaves A[i, n-1] * B[n-1, j] in every cell if n > 0, and leaves the old `c` if n == 0. |
| Tiled.LastWrittenUnique | aml/src/lib.rs:150-169 | Any two buffers with the tiled kernels' final state for the same inputs are equal. So the parallel, fallback and sequential kernels leave the same `c`, and the parallel kernel gives the same result on every run. |
| Tiled.SgemmTiled | aml/src/lib.rs:90-124 | The tiled kernel runs the checks and leaves `c` unchanged when they fail. Otherwise it writes every cell when n > 0 and leaves A[i, n-1] * B[n-1, j] in it, whatever it held before. When n == 0 it writes nothing. |
| Tiled.SgemmTiledSimd | aml/src/lib.rs:221-233 | The scalar fallback of the SIMD kernel runs the same checks and leaves `c` in exactly the state `SgemmTiled` leaves. |
| Tiled.SgemmTiledAccumulating | aml/src/lib.rs:117 | The tiled loop nest with `+=` leaves old `c` plus the matrix product, which is what the naive kernel leaves. |
| Parallel.SgemmTiledPar | aml/src/lib.rs:126-170 | For every order in which the pool runs the column-block tasks, the parallel kernel leaves the same final state as `SgemmTiled`. When the checks fail, `c` is unchanged. |
| Findings.AllOnesTiledVersusOracle | aml/src/lib.rs:117 | With all-ones operands and n > 0, the tiled kernels leave 1 in every cell, while the matrix product has n there. |
| Findings.TiledCounterexample | aml/src/lib.rs:117 | With all-ones operands, n > 1 and a zeroed `c`, the tiled result holds 1 in cell (0, 0), so it is not the product. |

## Left out

- The AVX branch of `sgemm_tiled_simd` (aml/src/lib.rs:194-219) is not modelled. It calls x86 intrinsics (`_mm256_loadu_ps`, `_mm256_broadcast_ss`, `_mm256_dp_ps`, `_mm256_storeu_ps`) whose semantics are outside the model.
- Tiled.SgemmTiledSimd: models only the branch taken when AVX is absent. Whether AVX is present is decided by `is_x86_feature_detected!`, which probes the running machine, and the branch chosen is announced with a `println!`. Neither is modelled.
- Parallel.SgemmTiledPar: the rayon thread pool and the unsafe writes through the shared `F32Buffer` handle (aml/src/lib.rs:43-59, 148-169) are not modelled. The tasks run one after another in a `schedule` order. The schedule may be any order, and may repeat a block, as long as it contains only block starts and contains every one of them. Concurrent interleaving is not modelled. It is covered only by the fact that tasks write disjoint cells.
- IEEE-754 `f32` rounding is not modelled. Elements are exact integers, so every result holds for exact arithmetic only.
- `usize` overflow is not modelled. The shape product in `new` and `a.shape[0] * b.shape[1]` in the kernels are unbounded here.
- The shape is stored as the pair (rows, cols), not as a `Vec`. The kernels take the `Tensor` subset type because `F32Tensor`'s fields are private and `new` is the only way to build one. So a kernel always sees a shape of rank 2 with dimensions that are multiples of 16.
- Borrowing and lifetimes of the tensor's data slice are not modelled. The data is a value.
- The `tests` module and the `stdsimd` feature attribute (aml/src/lib.rs:1-4) are not part of this model.
- Nothing is left out for zero dimensions. The code accepts a dimension of 0, because 0 % 16 == 0, even though the library's documentation calls dimensions positive. The model follows the code. With n == 0 the tiled loop nest writes nothing, and the naive kernel adds nothing.

## Findings

| source | as written | input that shows it | evidently intended | confidence | as-written member | corrected member |
|---|---|---|---|---|---|---|
| aml/src/lib.rs:117 (also 159-163 and 227) | `c[row*p + col_block + el] = a[…] * b[…]` inside both the `tile` and the `tile_row` loops, so each write replaces the previous one and a cell keeps only A[row, n-1] * B[n-1, j] | A = B = 16 x 16 of ones and a zeroed C. Every cell becomes 1, while the product is 16. This is the single-block case, where the tiled kernels are documented to match the naive kernel. | `+=` into a zeroed C, so that each cell collects all n products and matches `sgemm` | high (not executed) | Findings.TiledCounterexample | Tiled.SgemmTiledAccumulating |
