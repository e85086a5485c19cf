/** Values shared by the score-matrix builder, the rest handling and the post-processing:
    arc scores with a negative-infinity sentinel, dense square matrices, arcs, and the
    shape errors that torch raises while building a dense matrix. */
module Scores {

  /** An arc score: a finite logit, or minus infinity ("no arc possible"). Only addition,
      the comparison with 0 and the sentinel matter to the code modelled here, so logits are
      modelled as integers. */
  datatype Score = Fin(value: int) | NegInf

  /** A dense matrix, row = head index, column = dependent index. */
  type Matrix = seq<seq<Score>>

  predicate IsSquare(m: Matrix) {
    forall i :: 0 <= i < |m| ==> |m[i]| == |m|
  }

  /** An arc (head, dependent); index 0 is the synthetic root. */
  datatype Arc = Arc(head: int, dependent: int)

  /** Errors torch raises on tensors of the wrong shape: while scattering arcs into a dense
      matrix, or when a column is selected from a tensor that has only one dimension. */
  datatype ShapeError =
    | LengthMismatch   // number of arcs differs from the number of values
    | IndexOutOfRange  // an arc names an index outside [0, n]
    | TooManyIndices   // `t[:, 0]` on a one-dimensional tensor

  datatype Result<T> = Ok(value: T) | Err(error: ShapeError)

  /** The value of a dense array, as handed to a decoder (`.cpu().numpy()`). */
  function Rows(a: array2<Score>): (m: Matrix)
    reads a
    ensures |m| == a.Length0
    ensures forall i :: 0 <= i < |m| ==> |m[i]| == a.Length1
    ensures forall i, j :: 0 <= i < a.Length0 && 0 <= j < a.Length1 ==> m[i][j] == a[i, j]
  {
    seq(a.Length0, i requires 0 <= i < a.Length0 reads a =>
      seq(a.Length1, j requires 0 <= j < a.Length1 reads a => a[i, j]))
  }

  /** The transpose of a square matrix (edges pointing toward the parent). */
  function Transpose(m: Matrix): (t: Matrix)
    requires IsSquare(m)
    ensures IsSquare(t) && |t| == |m|
    ensures forall i, j :: 0 <= i < |m| && 0 <= j < |m| ==> t[i][j] == m[j][i]
  {
    seq(|m|, i requires 0 <= i < |m| => seq(|m|, j requires 0 <= j < |m| => m[j][i]))
  }
}
