/** The score-matrix builder: candidate arcs and their scores are scattered into a dense
    (n+1) x (n+1) matrix, root at index 0 (`compute_adj_logits_root`, `compute_adj_root`). */
module Adjacency {
  import opened Scores

  /** The value torch's sparse-to-dense conversion puts at cell (i, j): duplicate coordinates
      are summed, and a cell no arc names holds 0. */
  function CellSum(arcs: seq<Arc>, values: seq<int>, i: int, j: int): int
    requires |arcs| == |values|
    decreases |arcs|
  {
    if |arcs| == 0 then 0
    else
      var last := |arcs| - 1;
      CellSum(arcs[..last], values[..last], i, j) + (if arcs[last] == Arc(i, j) then values[last] else 0)
  }

  /** `torch.ones(len(arcs))`. */
  function Ones(m: nat): seq<int> {
    seq(m, _ => 1)
  }

  predicate InRange(arcs: seq<Arc>, n: nat) {
    forall k :: 0 <= k < |arcs| ==> 0 <= arcs[k].head <= n && 0 <= arcs[k].dependent <= n
  }

  /** What `torch.sparse_coo_tensor` accepts: one value per arc, every index within [0, n]. */
  predicate Scatterable(arcs: seq<Arc>, values: seq<int>, n: nat) {
    |arcs| == |values| && InRange(arcs, n)
  }

  predicate Distinct(arcs: seq<Arc>) {
    forall x, y :: 0 <= x < y < |arcs| ==> arcs[x] != arcs[y]
  }

  /** A cell that no candidate arc names sums to 0. */
  lemma {:induction false} CellSumOffCandidates(arcs: seq<Arc>, values: seq<int>, i: int, j: int)
    requires |arcs| == |values| && Arc(i, j) !in arcs
    ensures CellSum(arcs, values, i, j) == 0
    decreases |arcs|
  {
    if |arcs| > 0 {
      CellSumOffCandidates(arcs[..|arcs| - 1], values[..|values| - 1], i, j);
    }
  }

  /** Without duplicates, a candidate cell holds exactly that arc's score. */
  lemma {:induction false} CellSumOfDistinct(arcs: seq<Arc>, values: seq<int>, x: nat)
    requires |arcs| == |values| && Distinct(arcs) && x < |arcs|
    ensures CellSum(arcs, values, arcs[x].head, arcs[x].dependent) == values[x]
    decreases |arcs|
  {
    var last := |arcs| - 1;
    var a := arcs[x];
    if x == last {
      CellSumOffCandidates(arcs[..last], values[..last], a.head, a.dependent);
    } else {
      CellSumOfDistinct(arcs[..last], values[..last], x);
    }
  }

  /** Scattering ones counts the arcs at each cell. */
  lemma {:induction false} CellSumOfOnes(arcs: seq<Arc>, i: int, j: int)
    ensures CellSum(arcs, Ones(|arcs|), i, j) == multiset(arcs)[Arc(i, j)]
    decreases |arcs|
  {
    if |arcs| > 0 {
      var last := |arcs| - 1;
      assert Ones(|arcs|)[..last] == Ones(last);
      CellSumOfOnes(arcs[..last], i, j);
      assert arcs == arcs[..last] + [arcs[last]];
      assert multiset(arcs) == multiset(arcs[..last]) + multiset{arcs[last]};
    }
  }

  /** Without duplicates, the target matrix is 1 exactly on the arcs and 0 elsewhere. */
  lemma CellSumOfOnesDistinct(arcs: seq<Arc>, i: int, j: int)
    requires Distinct(arcs)
    ensures CellSum(arcs, Ones(|arcs|), i, j) == if Arc(i, j) in arcs then 1 else 0
  {
    if Arc(i, j) in arcs {
      var x :| 0 <= x < |arcs| && arcs[x] == Arc(i, j);
      CellSumOfDistinct(arcs, Ones(|arcs|), x);
    } else {
      CellSumOffCandidates(arcs, Ones(|arcs|), i, j);
    }
  }

  /** Adding the k-th arc to the scatter changes one cell only. */
  lemma CellSumStep(arcs: seq<Arc>, values: seq<int>, k: nat, i: int, j: int)
    requires |arcs| == |values| && k < |arcs|
    ensures CellSum(arcs[..k + 1], values[..k + 1], i, j)
      == CellSum(arcs[..k], values[..k], i, j) + (if arcs[k] == Arc(i, j) then values[k] else 0)
  {
    assert arcs[..k + 1][..k] == arcs[..k];
    assert values[..k + 1][..k] == values[..k];
  }

  /** `torch.sparse_coo_tensor(arcs.T, values, (n+1, n+1)).to_dense()`: a fresh dense matrix
      whose every cell is the sum of the values of the arcs at that cell, or the error torch
      raises. */
  method ScatterAdd(arcs: seq<Arc>, values: seq<int>, n: nat) returns (r: Result<array2<Score>>)
    ensures !Scatterable(arcs, values, n) ==>
      r == Err(if |arcs| != |values| then LengthMismatch else IndexOutOfRange)
    ensures Scatterable(arcs, values, n) ==>
      && r.Ok? && fresh(r.value)
      && r.value.Length0 == n + 1 && r.value.Length1 == n + 1
      && forall i, j :: 0 <= i <= n && 0 <= j <= n ==> r.value[i, j] == Fin(CellSum(arcs, values, i, j))
  {
    if |arcs| != |values| {
      return Err(LengthMismatch);
    }
    if !InRange(arcs, n) {
      return Err(IndexOutOfRange);
    }
    var dense := new Score[n + 1, n + 1]((_, _) => Fin(0));
    var k := 0;
    while k < |arcs|
      invariant 0 <= k <= |arcs|
      invariant forall i, j :: 0 <= i <= n && 0 <= j <= n ==> dense[i, j] == Fin(CellSum(arcs[..k], values[..k], i, j))
    {
      AddArc(dense, arcs, values, k, n);
      k := k + 1;
    }
    assert arcs[..k] == arcs && values[..k] == values;
    return Ok(dense);
  }

  /** One step of the scatter: the k-th value is added to the cell of the k-th arc. */
  method AddArc(dense: array2<Score>, arcs: seq<Arc>, values: seq<int>, k: nat, n: nat)
    requires Scatterable(arcs, values, n) && k < |arcs|
    requires dense.Length0 == n + 1 && dense.Length1 == n + 1
    requires forall i, j :: 0 <= i <= n && 0 <= j <= n ==> dense[i, j] == Fin(CellSum(arcs[..k], values[..k], i, j))
    modifies dense
    ensures forall i, j :: 0 <= i <= n && 0 <= j <= n ==> dense[i, j] == Fin(CellSum(arcs[..k + 1], values[..k + 1], i, j))
  {
    var a := arcs[k];
    forall i, j | 0 <= i <= n && 0 <= j <= n
      ensures CellSum(arcs[..k + 1], values[..k + 1], i, j)
        == CellSum(arcs[..k], values[..k], i, j) + (if a == Arc(i, j) then values[k] else 0)
    {
      CellSumStep(arcs, values, k, i, j);
    }
    dense[a.head, a.dependent] := Fin(dense[a.head, a.dependent].value + values[k]);
  }

  /** `compute_adj_logits_root`: the scattered logits, with every cell that is exactly 0
      overwritten in place by -inf. A cell whose scores cancel, or whose only score is 0, is
      therefore indistinguishable from a cell with no candidate arc. */
  method ComputeAdjLogitsRoot(potArcs: seq<Arc>, logits: seq<int>, n: nat) returns (r: Result<array2<Score>>)
    ensures !Scatterable(potArcs, logits, n) ==>
      r == Err(if |potArcs| != |logits| then LengthMismatch else IndexOutOfRange)
    ensures Scatterable(potArcs, logits, n) ==>
      && r.Ok? && fresh(r.value)
      && r.value.Length0 == n + 1 && r.value.Length1 == n + 1
      && forall i, j :: 0 <= i <= n && 0 <= j <= n ==>
           r.value[i, j] == (var s := CellSum(potArcs, logits, i, j); if s == 0 then NegInf else Fin(s))
    ensures Scatterable(potArcs, logits, n) ==>
      forall i, j :: 0 <= i <= n && 0 <= j <= n && Arc(i, j) !in potArcs ==> r.value[i, j] == NegInf
  {
    r := ScatterAdd(potArcs, logits, n);
    if r.Err? {
      return;
    }
    forall i, j | 0 <= i <= n && 0 <= j <= n && Arc(i, j) !in potArcs
      ensures CellSum(potArcs, logits, i, j) == 0
    {
      CellSumOffCandidates(potArcs, logits, i, j);
    }
    var adj := r.value;
    var i := 0;
    while i <= n
      invariant 0 <= i <= n + 1
      invariant forall i', j :: 0 <= i' < i && 0 <= j <= n ==>
        adj[i', j] == (var s := CellSum(potArcs, logits, i', j); if s == 0 then NegInf else Fin(s))
      invariant forall i', j :: i <= i' <= n && 0 <= j <= n ==> adj[i', j] == Fin(CellSum(potArcs, logits, i', j))
    {
      var j := 0;
      while j <= n
        invariant 0 <= j <= n + 1
        invariant forall i', j' :: 0 <= i' < i && 0 <= j' <= n ==>
          adj[i', j'] == (var s := CellSum(potArcs, logits, i', j'); if s == 0 then NegInf else Fin(s))
        invariant forall j' :: 0 <= j' < j ==>
          adj[i, j'] == (var s := CellSum(potArcs, logits, i, j'); if s == 0 then NegInf else Fin(s))
        invariant forall i', j' :: i <= i' <= n && 0 <= j' <= n && (i' > i || j' >= j) ==>
          adj[i', j'] == Fin(CellSum(potArcs, logits, i', j'))
      {
        if adj[i, j] == Fin(0) {
          adj[i, j] := NegInf;
        }
        j := j + 1;
      }
      i := i + 1;
    }
  }

  /** `compute_adj_root`: the scatter of the value 1 for each arc, so each cell counts the
      arcs at that cell. */
  method ComputeAdjRoot(arcs: seq<Arc>, n: nat) returns (r: Result<array2<Score>>)
    ensures !InRange(arcs, n) ==> r == Err(IndexOutOfRange)
    ensures InRange(arcs, n) ==>
      && r.Ok? && fresh(r.value)
      && r.value.Length0 == n + 1 && r.value.Length1 == n + 1
      && forall i, j :: 0 <= i <= n && 0 <= j <= n ==> r.value[i, j] == Fin(multiset(arcs)[Arc(i, j)])
    ensures InRange(arcs, n) && Distinct(arcs) ==>
      forall i, j :: 0 <= i <= n && 0 <= j <= n ==> r.value[i, j] == Fin(if Arc(i, j) in arcs then 1 else 0)
  {
    r := ScatterAdd(arcs, Ones(|arcs|), n);
    if r.Ok? {
      forall i, j | 0 <= i <= n && 0 <= j <= n
        ensures CellSum(arcs, Ones(|arcs|), i, j) == multiset(arcs)[Arc(i, j)]
        ensures Distinct(arcs) ==> CellSum(arcs, Ones(|arcs|), i, j) == if Arc(i, j) in arcs then 1 else 0
      {
        CellSumOfOnes(arcs, i, j);
        if Distinct(arcs) {
          CellSumOfOnesDistinct(arcs, i, j);
        }
      }
    }
  }
}
