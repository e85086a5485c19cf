/** `generate_square_subsequent_mask`: the causal attention mask used in pre-training. */
module CausalMask {
  import opened Scores

  /** `torch.ones(sz, sz) * float('-inf')`. */
  function Full(sz: nat, v: Score): Matrix {
    seq(sz, _ => seq(sz, _ => v))
  }

  /** `torch.triu(m, diagonal)`: entries with j - i >= diagonal are kept, the others are 0. */
  function Triu(m: Matrix, diagonal: int): Matrix {
    seq(|m|, i requires 0 <= i < |m| =>
      seq(|m[i]|, j requires 0 <= j < |m[i]| => if j - i >= diagonal then m[i][j] else Fin(0)))
  }

  /** An sz x sz matrix that is -inf exactly strictly above the diagonal and 0 on and below
      it, so position i can attend only to positions j <= i. */
  function SquareSubsequentMask(sz: nat): (mask: Matrix)
    ensures |mask| == sz && IsSquare(mask)
    ensures forall i, j :: 0 <= i < sz && 0 <= j < sz ==> (mask[i][j] == NegInf <==> j > i)
    ensures forall i, j :: 0 <= i < sz && 0 <= j <= i ==> mask[i][j] == Fin(0)
  {
    Triu(Full(sz, NegInf), 1)
  }
}
