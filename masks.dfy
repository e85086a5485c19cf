/** Boolean masks over token positions: the positions a mask selects (`np.where`), boolean
    indexing (`x[mask]`), and the rest mask derived from a reference head sequence. */
module Masks {

  /** The positions i with mask[i] == b, in ascending order (`np.where(mask == b)[0]`). */
  function Positions(mask: seq<bool>, b: bool): (r: seq<nat>)
    ensures |r| <= |mask|
    ensures forall x :: 0 <= x < |r| ==> r[x] < |mask| && mask[r[x]] == b
    ensures forall x, y :: 0 <= x < y < |r| ==> r[x] < r[y]
    decreases |mask|
  {
    if |mask| == 0 then []
    else Positions(mask[..|mask| - 1], b) + (if mask[|mask| - 1] == b then [|mask| - 1] else [])
  }

  /** Every position of polarity b is selected. */
  lemma {:induction false} PositionsComplete(mask: seq<bool>, b: bool)
    ensures forall i :: 0 <= i < |mask| && mask[i] == b ==> i in Positions(mask, b)
    decreases |mask|
  {
    if |mask| > 0 {
      PositionsComplete(mask[..|mask| - 1], b);
    }
  }

  /** Every position is selected by exactly one polarity of the mask. */
  lemma {:induction false} PositionsPartition(mask: seq<bool>)
    ensures |Positions(mask, true)| + |Positions(mask, false)| == |mask|
    decreases |mask|
  {
    if |mask| > 0 {
      PositionsPartition(mask[..|mask| - 1]);
    }
  }

  /** A mask with no position of polarity !b selects every position, in order. */
  lemma {:induction false} PositionsOfUniform(mask: seq<bool>, b: bool)
    requires forall i :: 0 <= i < |mask| ==> mask[i] == b
    ensures |Positions(mask, !b)| == 0
    ensures |Positions(mask, b)| == |mask|
    ensures forall x :: 0 <= x < |mask| ==> Positions(mask, b)[x] == x
    decreases |mask|
  {
    if |mask| > 0 {
      PositionsOfUniform(mask[..|mask| - 1], b);
    }
  }

  /** Boolean indexing `s[mask == b]`: the elements at the positions where the mask is b,
      in order. */
  function Keep<T>(s: seq<T>, mask: seq<bool>, b: bool): (r: seq<T>)
    requires |s| == |mask|
    ensures |r| == |Positions(mask, b)|
    ensures forall x :: 0 <= x < |r| ==> r[x] == s[Positions(mask, b)[x]]
    decreases |s|
  {
    if |s| == 0 then []
    else Keep(s[..|s| - 1], mask[..|mask| - 1], b) + (if mask[|mask| - 1] == b then [s[|s| - 1]] else [])
  }

  /** Indices of the rests (`np.where(is_rest)[0]`). */
  function RestIndices(isRest: seq<bool>): seq<nat> {
    Positions(isRest, true)
  }

  /** Indices of the tokens that take part in decoding, ascending: the a-th one is the
      original position of row/column a of the rest-filtered matrix. */
  function NonRestIndices(isRest: seq<bool>): seq<nat> {
    Positions(isRest, false)
  }

  /** The kind of musical data: note sequences may contain rests, chord sequences do not. */
  datatype DataKind = Notes | Chords

  /** The rest mask used at validation and test time: for notes, the positions whose
      reference head is -1; for chords, no position at all. */
  function RestMask(kind: DataKind, headSeqs: seq<int>): (isRest: seq<bool>)
    ensures |isRest| == |headSeqs|
    ensures kind == Chords ==> RestIndices(isRest) == []
    ensures kind == Notes ==> forall i :: 0 <= i < |headSeqs| ==> (i in RestIndices(isRest) <==> headSeqs[i] == -1)
  {
    var r := match kind
      case Notes => seq(|headSeqs|, i requires 0 <= i < |headSeqs| => headSeqs[i] == -1)
      case Chords => seq(|headSeqs|, _ => false);
    PositionsComplete(r, true);
    if kind == Chords then PositionsOfUniform(r, false); r else r
  }
}
