# musicparser post-decoding glue, in Dafny

The music parser predicts a score for every candidate dependency arc between the notes of a
piece, with a virtual root at index 0. The integer and matrix glue around the tree decoder is
modelled here, from `musicparser/models.py`:

- **Score-matrix scatter** (`scores.dfy`, `adjacency.dfy`). `compute_adj_logits_root` sums
  the candidate-arc scores into a dense (n+1) x (n+1) matrix, then overwrites every cell that
  is exactly 0 with -inf. `compute_adj_root` scatters a 1 for every reference arc. Scores are
  `Fin(int) | NegInf`. Duplicate coordinates are summed, as torch's sparse-to-dense
  conversion does. A length mismatch or an index outside [0, n] is an error result, the case
  where torch raises.
- **Rest masks** (`masks.dfy`). These cover the positions a boolean mask selects
  (`np.where`), boolean indexing (`x[mask]`) and the rest mask. For note data the rest mask
  marks the positions whose reference head is -1; for chord data it marks nothing.
- **Rest reinsertion** (`reinsert.dfy`). `reintroduce_rests` maps a head sequence decoded over
  the k non-rest tokens back onto all positions. It is an imperative method over an
  `array<int>`, proved equal to the function `Reintroduced`; the properties are proved about
  that function. The two passes are:
  1. a cursor fill, with -1 at each rest;
  2. per rest index r, in ascending order, `+1` on every value >= r.

  The central lemma gives the renumbering a closed form `Relocate`: a compact head v >= 0
  lands on the v-th non-rest position, so a non-rest head never names a rest.
- **`postprocess`** (`postprocess.dfy`), in six steps:
  1. restrict the matrix to non-rest rows and columns;
  2. decode, with Eisner's algorithm or with Chu-Liu/Edmonds on the transpose;
  3. on the Eisner path, if more than one decoded entry equals 0, repair row 0 and decode
     exactly once more;
  4. reinsert the rests when there is at least one;
  5. lay the tree out as a 0/1 adjacency matrix and an arc list;
  6. return the head sequence with position 0 set to 0.

  The decoders are function parameters. The model assumes only that, on a k x k matrix, each
  returns k heads in [-1, k).
- **Causal mask** (`causal_mask.dfy`). `generate_square_subsequent_mask` is -inf strictly
  above the diagonal and 0 elsewhere.

Also in `postprocess.dfy` is the "rootless" arc filter used by the validation and test steps.

## Model

| member | source | states |
|---|---|---|
| Scores.Transpose | musicparser/models.py:335 | The `.T` handed to Chu-Liu/Edmonds is square, the same size, and has entry (i, j) equal to the original (j, i). |
| Masks.Positions | musicparser/models.py:405 | `np.where(mask == b)[0]` lists only positions where the mask is b, every one below the mask length, strictly ascending. |
| Masks.PositionsComplete | musicparser/models.py:405 | No position where the mask is b is missing from the list. |
| Masks.PositionsPartition | musicparser/models.py:405 | Rest and non-rest positions together number exactly the length of the mask. |
| Masks.PositionsOfUniform | musicparser/models.py:162 | An all-false mask selects nothing as rest, and it selects every position as non-rest, in order. |
| Masks.Keep | musicparser/models.py:332 | Boolean indexing keeps one element per selected position, and its x-th element is the element at the x-th selected position. |
| Masks.RestMask | musicparser/models.py:158-162 | For notes, position i is a rest exactly when its reference head is -1 (both directions). For chords, no position is a rest. The same derivation appears at lines 234-238. |
| Reinsert.FillNonRests | musicparser/models.py:406-412 | The cursor fill is exactly as long as the mask. |
| Reinsert.FillNonRestsAt | musicparser/models.py:406-412 | After the fill, every rest holds -1 and the c-th non-rest position holds the c-th compact value, so the cursor visits the compact sequence in order. |
| Reinsert.RenumberRelocates | musicparser/models.py:413-416 | The per-rest `+1` updates, applied in ascending rest order, send -1 to -1 and a compact index v < k to the index of the v-th non-rest position. A value >= k is shifted past every rest. |
| Reinsert.ReintroducedAt | musicparser/models.py:404-417 | The result is as long as the mask, holds -1 at every rest, and holds the c-th compact head, relocated, at the c-th non-rest position. |
| Reinsert.ReintroducedAvoidsRests | musicparser/models.py:413-416 | Compact heads in [-1, k) come back as -1 or as a non-rest position in range. This is the property the assertion at line 372 relies on. |
| Reinsert.ReintroducedWithoutRests | musicparser/models.py:352-353 | With no rest, reinsertion returns the head sequence unchanged, so skipping the call when there are no rests loses nothing. |
| Reinsert.ReintroducedExample | musicparser/models.py:404-417 | For compact heads [0, 1, 2] over (note, rest, note, note, rest), the result is [0, -1, 2, 3, -1]. |
| Reinsert.ShiftFrom | musicparser/models.py:416 | The masked in-place update adds 1 to exactly the values >= r and leaves the others as they were. |
| Reinsert.CursorFill | musicparser/models.py:406-412 | The first loop, with its cursor `new_idx`, leaves in a fresh array exactly the cursor fill of the mask. |
| Reinsert.ReintroduceRests | musicparser/models.py:404-417 | The two loops of `reintroduce_rests` leave in a fresh array exactly the fill renumbered by every rest index in ascending order, that is `Reintroduced`. |
| Adjacency.ScatterAdd | musicparser/models.py:322 | The sparse-to-dense conversion returns a length-mismatch or index error when torch would raise. Otherwise it returns a fresh (n+1) x (n+1) matrix whose every cell is the sum of the values of the arcs at that cell. |
| Adjacency.ComputeAdjLogitsRoot | musicparser/models.py:320-324 | `compute_adj_logits_root` returns the same errors and otherwise a fresh (n+1) x (n+1) matrix. A cell whose summed score is 0 becomes -inf and every other cell keeps its sum, so every non-candidate cell is -inf. |
| Adjacency.ComputeAdjRoot | musicparser/models.py:326-327 | `compute_adj_root` returns a fresh matrix in which each cell counts the arcs at that cell. For duplicate-free arcs the matrix is 1 exactly on the arcs and 0 elsewhere. An index outside [0, n] is an error. |
| Adjacency.CellSumOffCandidates | musicparser/models.py:322-323 | A cell no candidate arc names sums to 0, which is why it is then overwritten with -inf. |
| Adjacency.CellSumOfDistinct | musicparser/models.py:322 | Without duplicate arcs, the cell of the x-th arc holds exactly the x-th score. |
| Adjacency.CellSumOfOnes | musicparser/models.py:327 | Scattering ones counts the arcs at each cell, with multiplicity. |
| Adjacency.CellSumOfOnesDistinct | musicparser/models.py:327 | Without duplicates, that count is 1 for an arc and 0 for any other cell. |
| Postprocessing.RestrictToNonRests | musicparser/models.py:332 | The rest-filtered matrix is k x k (k = number of non-rests), and entry (a, b) is the original entry at the a-th and b-th non-rest positions. |
| Postprocessing.RootCountIsZeros | musicparser/models.py:338 | The count that decides the repair is exactly the number of entries equal to 0 (`np.sum(head_seq == 0)`). Entry 0 is included when the decoder puts 0 there. |
| Postprocessing.EisnerWithRepair | musicparser/models.py:336-344 | With at most one entry equal to 0, the first decoding is kept. With more than one, the decoder is called exactly once more, on the matrix with row 0 closed except columns 0 and last, and that second result is kept. The result always fits the matrix. |
| Postprocessing.Decoded | musicparser/models.py:334-344 | Whichever algorithm is selected, the decoded head sequence has one entry per token, each -1 or an index below the size. |
| Postprocessing.RepairedSubmatrix | musicparser/models.py:341-343 | The three assignments, made to the rest-filtered copy, leave 0 in row 0 at column 0 and the last column and -inf at every other column. All other rows are unchanged. |
| Postprocessing.DecodeRestricted | musicparser/models.py:334-344 | The decoding branch of `postprocess`, with its local repair of the submatrix, yields exactly the head sequence `Decoded` specifies. |
| Postprocessing.FullHeadsWellFormed | musicparser/models.py:350-353 | The head sequence after the conditional reinsertion covers every position and has -1 at every rest. Every entry is -1 or a non-rest position, and the c-th non-rest position carries the c-th decoded head, relocated. |
| Postprocessing.ArcListHeaded | musicparser/models.py:362-376 | Every listed arc is (h[i], i) for a position i >= 1 whose head is >= 0: none for position 0 and none for a rest. |
| Postprocessing.ArcListAscending | musicparser/models.py:362-376 | Listed dependents strictly ascend, so no position is listed twice. |
| Postprocessing.ArcListComplete | musicparser/models.py:362-376 | Every position i >= 1 with a head >= 0 contributes its arc (h[i], i). |
| Postprocessing.LayOut | musicparser/models.py:361-376 | The loop builds a fresh (n+1) x (n+1) matrix with exactly one 1 per column: row 0 for column 0 and for a rest, the head otherwise. It appends exactly the arc list, and no arc head is a rest (the assertion at line 372). |
| Postprocessing.Postprocess | musicparser/models.py:331-377 | `postprocess` returns a fresh adjacency matrix and the arc list of the full head sequence, and that sequence with entry 0 set to 0. No arc head is a rest. |
| Postprocessing.Rootless | musicparser/models.py:193 | On `torch.tensor` of the predicted arc list, the filter raises (`TooManyIndices`) exactly when the list is empty, because `torch.tensor([])` is one-dimensional and has no column 0. Otherwise it keeps one arc per position whose head is not the root, in their original order: the x-th kept arc is the arc at the x-th such position. The same filter appears at lines 262 and 305. |
| Postprocessing.RootlessComplete | musicparser/models.py:193 | A list holding an arc with a non-root head is filtered without error, and that arc survives the filter. |
| CausalMask.SquareSubsequentMask | musicparser/models.py:737-739 | The mask is sz x sz, with entry (i, j) = -inf exactly when j > i (both directions) and 0 on and below the diagonal. |

## Left out

- The decoders `eisner`, `eisner_fast` and `chuliu_edmonds_one_root` and the converter `dtree2unlabeled_ctree` live in `musicparser/postprocessing.py`, which is not part of this model. The decoders are parameters, constrained only to return one head in [-1, k) per token of a k x k matrix.
- The metric classes, the torchmetrics objects and the logging: foreign library wrappers.
- The neural modules (`TransformerEncoder`, `PositionalEncoding`, `NotesEncoder`, `ArcDecoder`, `ArcPredictionModel`) and `CosineWarmupScheduler`: floating-point numerics.
- The Lightning steps (`training_step`, `validation_step`, `test_step`, `predict_step`), the loss selection, `configure_optimizers`, `optimizer_step` and the launch scripts: training and configuration plumbing. The call to `postprocess` without a rest mask in `predict_step` is not modelled.
- The string dispatch on `alg` and its `ValueError` (lines 334-348) become the closed enumeration `Algorithm`, so the error branch has no counterpart.
- Scores are unbounded integers instead of floats. Rounding, NaN and signed zero are not modelled. Only summation, the comparison with 0 and the -inf sentinel are kept.
- Device transfers and numpy/torch conversions (`.cpu()`, `.numpy()`) are identities here. `torch.tensor` of the arc list is one too, except for its shape when the list is empty: an empty list gives a one-dimensional tensor, and `Postprocessing.Rootless` models the error that shape causes.
- Postprocessing.Postprocess: requires the mask to be as long as the side of the score matrix. With a mismatched mask, torch raises an indexing error, and that error path is not modelled.
- The in-place assignments of the root-row repair act on the rest-filtered copy. Boolean indexing in torch always copies, so the repair is modelled on a local value and the caller's matrix is never affected.
- As written, the repair reopens column 0 (the root's own cell) and the last column, not the first token's column. The model follows the code.
- A cell whose candidate scores cancel to exactly 0, or whose only score is 0, becomes -inf like a non-candidate cell. The code's own comment names this risk. `Adjacency.ComputeAdjLogitsRoot` states the behaviour as written.
