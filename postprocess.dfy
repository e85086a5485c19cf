/** `ArcPredictionLightModel.postprocess`: decode a tree from the rest-filtered score matrix
    (with the one-shot root-row repair), reinsert the rests, and lay the tree out as a 0/1
    adjacency matrix, an arc list and a head sequence. The decoders themselves are parameters. */
module Postprocessing {
  import opened Scores
  import opened Masks
  import opened Reinsert

  /** The decoding algorithms `postprocess` can select. */
  datatype Algorithm = Eisner | ChuLiuEdmonds

  /** A decoded head sequence over k tokens: k entries, each -1 (no head) or an index below k. */
  predicate HeadsFit(h: seq<int>, k: nat) {
    |h| == k && forall i :: 0 <= i < |h| ==> -1 <= h[i] < k
  }

  /** What `postprocess` relies on from a decoder: on a k x k matrix it returns a head
      sequence over k tokens. */
  ghost predicate Decodes(decode: Matrix -> seq<int>) {
    forall m :: IsSquare(m) ==> HeadsFit(decode(m), |m|)
  }

  /** `m[:, ~is_rest][~is_rest, :]`: first the non-rest columns of every row, then the non-rest
      rows. Entry (a, b) is the original entry at the a-th and b-th non-rest positions. */
  function RestrictToNonRests(m: Matrix, isRest: seq<bool>): (r: Matrix)
    requires IsSquare(m) && |m| == |isRest|
    ensures IsSquare(r) && |r| == |NonRestIndices(isRest)|
    ensures forall a, b :: 0 <= a < |r| && 0 <= b < |r| ==>
      r[a][b] == m[NonRestIndices(isRest)[a]][NonRestIndices(isRest)[b]]
  {
    var columns := seq(|m|, i requires 0 <= i < |m| => Keep(m[i], isRest, false));
    Keep(columns, isRest, false)
  }

  /** `np.sum(head_seq == 0)`: the number of entries equal to 0. Besides the tokens whose
      head is the root, this counts entry 0 itself when the decoder puts 0 there. */
  function RootCount(h: seq<int>): (c: nat)
    ensures c <= |h|
    decreases |h|
  {
    if |h| == 0 then 0 else RootCount(h[..|h| - 1]) + (if h[|h| - 1] == 0 then 1 else 0)
  }

  /** The count is exactly the multiplicity of 0 in the sequence. */
  lemma {:induction false} RootCountIsZeros(h: seq<int>)
    ensures RootCount(h) == multiset(h)[0]
    decreases |h|
  {
    if |h| > 0 {
      var last := |h| - 1;
      RootCountIsZeros(h[..last]);
      assert h == h[..last] + [h[last]];
    }
  }

  /** The score matrix after the root-row repair: in row 0 only column 0 (the root's own cell)
      and the last column are open, with score 0; every other row is unchanged. */
  function RepairRootRow(m: Matrix): Matrix
    requires IsSquare(m) && |m| > 0
  {
    m[0 := seq(|m|, j => if j == 0 || j == |m| - 1 then Fin(0) else NegInf)]
  }

  /** The Eisner path: decode once; if more than one entry of the result equals 0, repair
      the root row and decode exactly once more, keeping that second result. */
  function EisnerWithRepair(eisner: Matrix -> seq<int>, m: Matrix): (h: seq<int>)
    requires IsSquare(m) && Decodes(eisner)
    ensures HeadsFit(h, |m|)
    ensures RootCount(eisner(m)) <= 1 ==> h == eisner(m)
    ensures RootCount(eisner(m)) > 1 ==> |m| > 1 && h == eisner(RepairRootRow(m))
  {
    var first := eisner(m);
    if RootCount(first) > 1 then
      var repaired := RepairRootRow(m);
      assert IsSquare(repaired);
      eisner(repaired)
    else first
  }

  /** The compact head sequence the selected decoder yields on the rest-filtered matrix; the
      non-projective decoder reads the transposed matrix. */
  function Decoded(alg: Algorithm, eisner: Matrix -> seq<int>, chuLiuEdmonds: Matrix -> seq<int>, m: Matrix): (h: seq<int>)
    requires IsSquare(m) && Decodes(eisner) && Decodes(chuLiuEdmonds)
    ensures HeadsFit(h, |m|)
  {
    match alg
    case ChuLiuEdmonds => chuLiuEdmonds(Transpose(m))
    case Eisner => EisnerWithRepair(eisner, m)
  }

  /** The head sequence over all n + 1 positions that `postprocess` lays out: the decoded
      sequence, with the rests reinserted when there is at least one. */
  function FullHeads(m: Matrix, isRest: seq<bool>, alg: Algorithm,
                     eisner: Matrix -> seq<int>, chuLiuEdmonds: Matrix -> seq<int>): seq<int>
    requires IsSquare(m) && |m| == |isRest| && Decodes(eisner) && Decodes(chuLiuEdmonds)
  {
    var h := Decoded(alg, eisner, chuLiuEdmonds, RestrictToNonRests(m, isRest));
    if |RestIndices(isRest)| > 0 then Reintroduced(h, isRest) else h
  }

  /** The full head sequence covers every position, has -1 at every rest, gives the c-th
      non-rest position the c-th decoded head moved to the full index space, and never names
      a rest as a head. */
  lemma FullHeadsWellFormed(m: Matrix, isRest: seq<bool>, alg: Algorithm,
                            eisner: Matrix -> seq<int>, chuLiuEdmonds: Matrix -> seq<int>)
    requires IsSquare(m) && |m| == |isRest| && Decodes(eisner) && Decodes(chuLiuEdmonds)
    ensures var h := FullHeads(m, isRest, alg, eisner, chuLiuEdmonds);
      && |h| == |isRest|
      && (forall i :: 0 <= i < |h| && isRest[i] ==> h[i] == -1)
      && (forall i :: 0 <= i < |h| ==> h[i] == -1 || (0 <= h[i] < |h| && !isRest[h[i]]))
    ensures var d := Decoded(alg, eisner, chuLiuEdmonds, RestrictToNonRests(m, isRest));
      var h := FullHeads(m, isRest, alg, eisner, chuLiuEdmonds);
      forall c :: 0 <= c < |d| ==> h[NonRestIndices(isRest)[c]] == Relocate(d[c], isRest)
  {
    var d := Decoded(alg, eisner, chuLiuEdmonds, RestrictToNonRests(m, isRest));
    if |RestIndices(isRest)| > 0 {
      ReintroducedAt(d, isRest);
      ReintroducedAvoidsRests(d, isRest);
    } else {
      PositionsComplete(isRest, true);
      assert forall i :: 0 <= i < |isRest| ==> !isRest[i];
      PositionsOfUniform(isRest, false);
    }
  }

  /** The row of the single 1 that `postprocess` places in column c: 0 for the root column
      and for a position without head, the head otherwise. */
  function HeadRow(h: seq<int>, c: nat): int
    requires c < |h|
  {
    if c == 0 || h[c] < 0 then 0 else h[c]
  }

  /** The arc list `postprocess` appends to: one arc (head, i) for each position i >= 1 that
      has a head, in ascending order of i. */
  function ArcList(h: seq<int>): seq<Arc>
    decreases |h|
  {
    if |h| == 0 then []
    else
      var i := |h| - 1;
      ArcList(h[..i]) + (if i >= 1 && h[i] >= 0 then [Arc(h[i], i)] else [])
  }

  /** Every arc is (h[i], i) for a position i >= 1 with a head. */
  predicate HeadedArcs(r: seq<Arc>, h: seq<int>) {
    forall x :: 0 <= x < |r| ==> 1 <= r[x].dependent < |h| && r[x].head == h[r[x].dependent] >= 0
  }

  /** The dependents strictly ascend, so no position has two arcs. */
  predicate AscendingDependents(r: seq<Arc>) {
    forall x, y :: 0 <= x < y < |r| ==> r[x].dependent < r[y].dependent
  }

  /** The arc list holds only arcs (h[i], i) of positions i >= 1 with a head: none for the
      root position and none for a position without head. */
  lemma {:induction false} ArcListHeaded(h: seq<int>)
    ensures HeadedArcs(ArcList(h), h)
    decreases |h|
  {
    if |h| > 0 {
      var i := |h| - 1;
      var prefix := h[..i];
      ArcListHeaded(prefix);
      var r0 := ArcList(prefix);
      var r := ArcList(h);
      assert r == r0 + (if i >= 1 && h[i] >= 0 then [Arc(h[i], i)] else []);
      forall x | 0 <= x < |r0|
        ensures 1 <= r[x].dependent < |h| && r[x].head == h[r[x].dependent] >= 0
      {
        assert r[x] == r0[x];
        assert prefix[r0[x].dependent] == h[r0[x].dependent];
      }
    }
  }

  /** The arc list names each dependent at most once, in ascending order. */
  lemma {:induction false} ArcListAscending(h: seq<int>)
    ensures AscendingDependents(ArcList(h))
    decreases |h|
  {
    if |h| > 0 {
      var i := |h| - 1;
      var prefix := h[..i];
      ArcListAscending(prefix);
      ArcListHeaded(prefix);
      var r0 := ArcList(prefix);
      var r := ArcList(h);
      assert r == r0 + (if i >= 1 && h[i] >= 0 then [Arc(h[i], i)] else []);
      forall x, y | 0 <= x < y < |r|
        ensures r[x].dependent < r[y].dependent
      {
        assert r[x] == r0[x];
        if y < |r0| {
          assert r[y] == r0[y];
        }
      }
    }
  }

  /** Every position i >= 1 that has a head contributes its arc. */
  lemma {:induction false} ArcListComplete(h: seq<int>, i: nat)
    requires 1 <= i < |h| && h[i] >= 0
    ensures Arc(h[i], i) in ArcList(h)
    decreases |h|
  {
    if i < |h| - 1 {
      ArcListComplete(h[..|h| - 1], i);
    }
  }

  /** The one step of the arc list that position i adds. */
  lemma ArcListStep(h: seq<int>, i: nat)
    requires i < |h|
    ensures ArcList(h[..i + 1]) == ArcList(h[..i]) + (if i >= 1 && h[i] >= 0 then [Arc(h[i], i)] else [])
  {
    assert h[..i + 1][..i] == h[..i];
  }

  /** The boolean column `arcs[:, 0] == 0`: which arcs hang off the root. */
  function AtRoot(arcs: seq<Arc>): (mask: seq<bool>)
    ensures |mask| == |arcs|
    ensures forall x :: 0 <= x < |arcs| ==> (mask[x] <==> arcs[x].head == 0)
  {
    seq(|arcs|, x requires 0 <= x < |arcs| => arcs[x].head == 0)
  }

  /** `arcs[arcs[:, 0] != 0]` on `torch.tensor(arcs)`: the arcs whose head is not the root,
      each once and in their original order. An empty list becomes a one-dimensional tensor
      of shape (0,), on which selecting column 0 raises. */
  function Rootless(arcs: seq<Arc>): (r: Result<seq<Arc>>)
    ensures r.Err? <==> |arcs| == 0
    ensures r.Err? ==> r.error == TooManyIndices
    ensures r.Ok? ==> |r.value| <= |arcs| && forall x :: 0 <= x < |r.value| ==> r.value[x] in arcs && r.value[x].head != 0
    ensures r.Ok? ==> |r.value| == |Positions(AtRoot(arcs), false)|
    ensures r.Ok? ==> forall x :: 0 <= x < |r.value| ==> r.value[x] == arcs[Positions(AtRoot(arcs), false)[x]]
  {
    if |arcs| == 0 then Err(TooManyIndices)
    else
      PositionsPartition(AtRoot(arcs));
      Ok(Keep(arcs, AtRoot(arcs), false))
  }

  /** No arc with a non-root head is dropped. */
  lemma RootlessComplete(arcs: seq<Arc>, a: Arc)
    requires a in arcs && a.head != 0
    ensures Rootless(arcs).Ok? && a in Rootless(arcs).value
  {
    var atRoot := AtRoot(arcs);
    var i :| 0 <= i < |arcs| && arcs[i] == a;
    PositionsComplete(atRoot, false);
    var p := Positions(atRoot, false);
    assert i in p;
    var x :| 0 <= x < |p| && p[x] == i;
    assert Rootless(arcs).value[x] == a;
  }

  /** Lines 334-348 of `postprocess`, as statements: decode the rest-filtered matrix and, on
      the Eisner path, repair row 0 of that copy and decode once more when more than one
      entry equals 0. This is the statement-level form of the function `Decoded`, which
      specifies it. */
  method DecodeRestricted(sub: Matrix, alg: Algorithm,
                          eisner: Matrix -> seq<int>, chuLiuEdmonds: Matrix -> seq<int>)
    returns (headSeq: seq<int>)
    requires IsSquare(sub) && Decodes(eisner) && Decodes(chuLiuEdmonds)
    ensures headSeq == Decoded(alg, eisner, chuLiuEdmonds, sub)
  {
    if alg == ChuLiuEdmonds {
      headSeq := chuLiuEdmonds(Transpose(sub));
    } else {
      headSeq := eisner(sub);
      if RootCount(headSeq) > 1 {
        var m := RepairedSubmatrix(sub);
        headSeq := eisner(m);
      }
    }
  }

  /** The three assignments of the repair, made to the rest-filtered copy (boolean indexing
      copies): close all of row 0, then reopen its first and its last column with score 0.
      This is the statement-level form of the function `RepairRootRow`, which specifies it. */
  method RepairedSubmatrix(sub: Matrix) returns (m: Matrix)
    requires IsSquare(sub) && |sub| > 0
    ensures IsSquare(m) && |m| == |sub|
    ensures m[0][0] == Fin(0) && m[0][|m| - 1] == Fin(0)
    ensures forall j :: 0 < j < |m| - 1 ==> m[0][j] == NegInf
    ensures forall i :: 0 < i < |m| ==> m[i] == sub[i]
    ensures m == RepairRootRow(sub)
  {
    var k := |sub|;
    var row := seq(k, _ => NegInf);
    row := row[0 := Fin(0)];
    row := row[k - 1 := Fin(0)];
    assert row == seq(k, j => if j == 0 || j == k - 1 then Fin(0) else NegInf);
    m := sub[0 := row];
  }

  /** Lines 361-376 of `postprocess`: a zero (n+1) x (n+1) matrix gets one 1 per column, and
      every position i >= 1 with a head appends the arc (head, i). */
  method LayOut(h: seq<int>, isRest: seq<bool>, n: nat) returns (adj: array2<int>, arcs: seq<Arc>)
    requires |h| == |isRest| == n + 1
    requires forall i :: 0 <= i < |h| ==> h[i] == -1 || (0 <= h[i] < |h| && !isRest[h[i]])
    ensures fresh(adj)
    ensures adj.Length0 == n + 1 && adj.Length1 == n + 1
    ensures forall r, c :: 0 <= r <= n && 0 <= c <= n ==> adj[r, c] == if r == HeadRow(h, c) then 1 else 0
    ensures arcs == ArcList(h)
    ensures forall x :: 0 <= x < |arcs| ==> 0 <= arcs[x].head <= n && !isRest[arcs[x].head]
  {
    adj := new int[n + 1, n + 1]((_, _) => 0);
    arcs := [];
    var i := 0;
    while i < |h|
      invariant 0 <= i <= |h|
      invariant forall r, c :: 0 <= r <= n && 0 <= c <= n ==> adj[r, c] == if c < i && r == HeadRow(h, c) then 1 else 0
      invariant arcs == ArcList(h[..i])
      invariant forall x :: 0 <= x < |arcs| ==> 0 <= arcs[x].head <= n && !isRest[arcs[x].head]
    {
      var head := h[i];
      assert head == -1 || (0 <= head <= n && !isRest[head]);
      ArcListStep(h, i);
      if i == 0 {
        adj[0, 0] := 1;
      } else if head < 0 {
        adj[0, i] := 1;
      } else if head != 0 {
        adj[head, i] := 1;
        arcs := arcs + [Arc(head, i)];
        assert !isRest[head];
      } else {
        adj[head, i] := 1;
        arcs := arcs + [Arc(head, i)];
      }
      i := i + 1;
    }
    assert h[..i] == h;
  }

  /** `postprocess(arc_pred_logits_root, num_notes, is_rest, alg)`. */
  method Postprocess(logits: array2<Score>, n: nat, isRest: seq<bool>, alg: Algorithm,
                     eisner: Matrix -> seq<int>, chuLiuEdmonds: Matrix -> seq<int>)
    returns (adj: array2<int>, arcs: seq<Arc>, heads: seq<int>)
    requires logits.Length0 == n + 1 && logits.Length1 == n + 1 && |isRest| == n + 1
    requires Decodes(eisner) && Decodes(chuLiuEdmonds)
    ensures fresh(adj)
    ensures var h := FullHeads(Rows(logits), isRest, alg, eisner, chuLiuEdmonds);
      && |h| == n + 1
      && adj.Length0 == n + 1 && adj.Length1 == n + 1
      && (forall r, c :: 0 <= r <= n && 0 <= c <= n ==> adj[r, c] == if r == HeadRow(h, c) then 1 else 0)
      && arcs == ArcList(h)
      && |heads| == n + 1 && heads[0] == 0 && heads[1..] == h[1..]
    ensures forall x :: 0 <= x < |arcs| ==> 0 <= arcs[x].head <= n && !isRest[arcs[x].head]
  {
    var m := Rows(logits);
    var sub := RestrictToNonRests(m, isRest);
    var headSeq := DecodeRestricted(sub, alg, eisner, chuLiuEdmonds);
    if |RestIndices(isRest)| > 0 {
      var full := ReintroduceRests(headSeq, isRest);
      headSeq := full[..];
    }
    FullHeadsWellFormed(m, isRest, alg, eisner, chuLiuEdmonds);
    assert headSeq == FullHeads(m, isRest, alg, eisner, chuLiuEdmonds);
    adj, arcs := LayOut(headSeq, isRest, n);
    heads := [0] + headSeq[1..];
  }
}
