/**
  The tensor view of the library: a rank-2 shape over a flat row-major buffer.
  Construction is the only place shapes are checked; every value of type
  `Tensor` has passed those checks.
 */
module Tensors {
  import opened Wrappers
  import opened Layout

  /** A rows x cols view over a row-major buffer; elements are exact integers. */
  datatype TensorView = TensorView(rows: nat, cols: nat, data: seq<int>)
  {
    /** The invariant construction establishes: block-aligned dimensions and a buffer of exactly rows * cols cells. */
    predicate WellFormed()
    {
      rows % BlockSize == 0 && cols % BlockSize == 0 && |data| == rows * cols
    }
  }

  /** The views the constructor can return. */
  type Tensor = t: TensorView | t.WellFormed() witness TensorView(0, 0, [])

  /** Why a buffer and shape were refused, in the order the constructor checks. */
  datatype ShapeError =
    | RankNotTwo(rank: nat)
    | RowsNotBlockMultiple(rows: nat)
    | ColsNotBlockMultiple(cols: nat)
    | LengthMismatch(length: nat, expected: nat)

  /** Product of the dimensions, folded from the left starting at 1. */
  function ShapeProduct(shape: seq<nat>): nat
  {
    if |shape| == 0 then 1 else ShapeProduct(shape[..|shape| - 1]) * shape[|shape| - 1]
  }

  /** For a rank-2 shape the fold is the product of the two dimensions. */
  lemma ShapeProductOfPair(shape: seq<nat>)
    requires |shape| == 2
    ensures ShapeProduct(shape) == shape[0] * shape[1]
  {
    assert shape[..1][..0] == [];
    assert ShapeProduct(shape[..1]) == shape[0];
  }

  /**
    Wraps `data` as a tensor of the given shape. The shape must have exactly
    two dimensions, each a multiple of the block size, and the buffer must hold
    exactly their product of elements; the first check that fails is reported.
   */
  function New(data: seq<int>, shape: seq<nat>): (r: Result<Tensor, ShapeError>)
    ensures r.Success? <==>
      |shape| == 2 && shape[0] % BlockSize == 0 && shape[1] % BlockSize == 0 && |data| == shape[0] * shape[1]
    ensures r.Success? ==> r.value.rows == shape[0] && r.value.cols == shape[1] && r.value.data == data
    ensures |shape| != 2 ==> r == Failure(RankNotTwo(|shape|))
    ensures |shape| == 2 && shape[0] % BlockSize != 0 ==> r == Failure(RowsNotBlockMultiple(shape[0]))
    ensures |shape| == 2 && shape[0] % BlockSize == 0 && shape[1] % BlockSize != 0 ==>
      r == Failure(ColsNotBlockMultiple(shape[1]))
    ensures |shape| == 2 && shape[0] % BlockSize == 0 && shape[1] % BlockSize == 0 && |data| != shape[0] * shape[1] ==>
      r == Failure(LengthMismatch(|data|, shape[0] * shape[1]))
  {
    if |shape| != 2 then Failure(RankNotTwo(|shape|))
    else if shape[0] % BlockSize != 0 then Failure(RowsNotBlockMultiple(shape[0]))
    else if shape[1] % BlockSize != 0 then Failure(ColsNotBlockMultiple(shape[1]))
    else
      var expected := ShapeProduct(shape);
      ShapeProductOfPair(shape);
      if |data| != expected then Failure(LengthMismatch(|data|, expected))
      else Success(TensorView(shape[0], shape[1], data))
  }

  /** Every tensor is what the constructor returns for its own buffer and shape. */
  lemma NewRoundTrip(t: Tensor)
    ensures New(t.data, [t.rows, t.cols]) == Success(t)
  {
  }
}
