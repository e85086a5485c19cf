/** Rest reinsertion (`reintroduce_rests`): a head sequence decoded over the non-rest tokens
    only is mapped back onto the full token index space. */
module Reinsert {
  import opened Masks

  /** First pass: walk the mask with a cursor into the compact sequence; a rest gets -1 and
      each non-rest position takes the next compact value. */
  function FillNonRests(headSeq: seq<int>, isRest: seq<bool>): (r: seq<int>)
    requires |NonRestIndices(isRest)| <= |headSeq|
    ensures |r| == |isRest|
    decreases |isRest|
  {
    if |isRest| == 0 then []
    else
      var prefix := isRest[..|isRest| - 1];
      FillNonRests(headSeq, prefix)
        + [if isRest[|isRest| - 1] then -1 else headSeq[|NonRestIndices(prefix)|]]
  }

  /** One masked update `v[v >= r] += 1` applied to a single value. */
  function Bump(v: int, r: int): int {
    if v >= r then v + 1 else v
  }

  /** The effect on one value of the updates for the rests rs, applied in the order given. */
  function Renumber(v: int, rs: seq<nat>): int
    decreases |rs|
  {
    if |rs| == 0 then v else Bump(Renumber(v, rs[..|rs| - 1]), rs[|rs| - 1])
  }

  function RenumberAll(s: seq<int>, rs: seq<nat>): seq<int> {
    seq(|s|, j requires 0 <= j < |s| => Renumber(s[j], rs))
  }

  /** The value `reintroduce_rests(headSeq, isRest)` returns. */
  function Reintroduced(headSeq: seq<int>, isRest: seq<bool>): seq<int>
    requires |NonRestIndices(isRest)| <= |headSeq|
  {
    RenumberAll(FillNonRests(headSeq, isRest), RestIndices(isRest))
  }

  /** Where a compact head value should land in the full index space: a negative value is
      kept, compact index v < k names the v-th non-rest position, and a value beyond the
      compact range is shifted past every rest. */
  function Relocate(v: int, isRest: seq<bool>): int {
    if v < 0 then v
    else if v < |NonRestIndices(isRest)| then NonRestIndices(isRest)[v]
    else v + |RestIndices(isRest)|
  }

  /** The cursor fill puts -1 on every rest and the c-th compact value on the c-th non-rest
      position. */
  lemma {:induction false} FillNonRestsAt(headSeq: seq<int>, isRest: seq<bool>)
    requires |NonRestIndices(isRest)| <= |headSeq|
    ensures forall i :: 0 <= i < |isRest| && isRest[i] ==> FillNonRests(headSeq, isRest)[i] == -1
    ensures forall c :: 0 <= c < |NonRestIndices(isRest)| ==>
      FillNonRests(headSeq, isRest)[NonRestIndices(isRest)[c]] == headSeq[c]
    decreases |isRest|
  {
    if |isRest| > 0 {
      var prefix := isRest[..|isRest| - 1];
      FillNonRestsAt(headSeq, prefix);
      var f := FillNonRests(headSeq, isRest);
      assert f == FillNonRests(headSeq, prefix) + [f[|isRest| - 1]];
      forall i | 0 <= i < |isRest| && isRest[i]
        ensures f[i] == -1
      {
        if i < |isRest| - 1 {
          assert prefix[i];
        }
      }
    }
  }

  /** The renumbering loop sends every value to its relocated value: this is what makes
      non-rest heads name non-rest positions. */
  lemma {:induction false} RenumberRelocates(isRest: seq<bool>, v: int)
    ensures Renumber(v, RestIndices(isRest)) == Relocate(v, isRest)
    decreases |isRest|
  {
    if |isRest| > 0 {
      var last := |isRest| - 1;
      var prefix := isRest[..last];
      var rs, ns := RestIndices(prefix), NonRestIndices(prefix);
      RenumberRelocates(prefix, v);
      PositionsPartition(prefix);
      if isRest[last] {
        RelocatePastRest(prefix, rs, ns, v, last);
      } else {
        assert RestIndices(isRest) == rs;
        assert NonRestIndices(isRest) == ns + [last];
      }
    }
  }

  /** The inductive step of RenumberRelocates when the last position is a rest. */
  lemma RelocatePastRest(prefix: seq<bool>, rs: seq<nat>, ns: seq<nat>, v: int, last: nat)
    requires rs == RestIndices(prefix) && ns == NonRestIndices(prefix)
    requires last == |prefix| == |rs| + |ns|
    requires Renumber(v, rs) == Relocate(v, prefix)
    ensures Renumber(v, RestIndices(prefix + [true])) == Relocate(v, prefix + [true])
  {
  }

  /** What `reintroduce_rests` returns: a sequence as long as the mask, -1 on every rest,
      and on the c-th non-rest position the c-th compact value, relocated. */
  lemma ReintroducedAt(headSeq: seq<int>, isRest: seq<bool>)
    requires |NonRestIndices(isRest)| <= |headSeq|
    ensures |Reintroduced(headSeq, isRest)| == |isRest|
    ensures forall i :: 0 <= i < |isRest| && isRest[i] ==> Reintroduced(headSeq, isRest)[i] == -1
    ensures forall c :: 0 <= c < |NonRestIndices(isRest)| ==>
      Reintroduced(headSeq, isRest)[NonRestIndices(isRest)[c]] == Relocate(headSeq[c], isRest)
  {
    FillNonRestsAt(headSeq, isRest);
    RenumberRelocates(isRest, -1);
    forall c | 0 <= c < |NonRestIndices(isRest)|
      ensures Reintroduced(headSeq, isRest)[NonRestIndices(isRest)[c]] == Relocate(headSeq[c], isRest)
    {
      RenumberRelocates(isRest, headSeq[c]);
    }
  }

  /** Compact heads in [-1, k) come back as -1 or as a non-rest position of the full sequence:
      a non-rest head never names a rest. */
  lemma ReintroducedAvoidsRests(headSeq: seq<int>, isRest: seq<bool>)
    requires |headSeq| == |NonRestIndices(isRest)|
    requires forall c :: 0 <= c < |headSeq| ==> -1 <= headSeq[c] < |headSeq|
    ensures forall i :: 0 <= i < |isRest| ==>
      var h := Reintroduced(headSeq, isRest)[i];
      h == -1 || (0 <= h < |isRest| && !isRest[h])
  {
    ReintroducedAt(headSeq, isRest);
    PositionsComplete(isRest, false);
    var p := NonRestIndices(isRest);
    forall i | 0 <= i < |isRest| && !isRest[i]
      ensures var h := Reintroduced(headSeq, isRest)[i]; h == -1 || (0 <= h < |isRest| && !isRest[h])
    {
      assert i in p;
      var c :| 0 <= c < |p| && p[c] == i;
      assert Reintroduced(headSeq, isRest)[i] == Relocate(headSeq[c], isRest);
    }
  }

  /** With no rest at all, reinsertion is the identity. */
  lemma ReintroducedWithoutRests(headSeq: seq<int>, isRest: seq<bool>)
    requires forall i :: 0 <= i < |isRest| ==> !isRest[i]
    requires |headSeq| == |isRest|
    ensures Reintroduced(headSeq, isRest) == headSeq
  {
    PositionsOfUniform(isRest, false);
    ReintroducedAt(headSeq, isRest);
    forall c | 0 <= c < |headSeq|
      ensures Reintroduced(headSeq, isRest)[c] == headSeq[c]
    {
      assert NonRestIndices(isRest)[c] == c;
    }
  }

  /** The rest and non-rest positions of the mask (note, rest, note, note, rest). */
  lemma ExampleMaskPositions(isRest: seq<bool>)
    requires isRest == [false, true, false, false, true]
    ensures RestIndices(isRest) == [1, 4] && NonRestIndices(isRest) == [0, 2, 3]
  {
    var m1, m2, m3, m4 := [false], [false, true], [false, true, false], [false, true, false, false];
    assert m1[..0] == [] && m2[..1] == m1 && m3[..2] == m2 && m4[..3] == m3 && isRest[..4] == m4;
    assert Positions(m1, true) == [] && Positions(m1, false) == [0];
    assert Positions(m2, true) == [1] && Positions(m2, false) == [0];
    assert Positions(m3, true) == [1] && Positions(m3, false) == [0, 2];
    assert Positions(m4, true) == [1] && Positions(m4, false) == [0, 2, 3];
  }

  /** A worked instance: compact heads [0, 1, 2] over the mask (note, rest, note, note, rest)
      become [0, -1, 2, 3, -1]; compact head 1 names the second note, at full index 2. */
  lemma ReintroducedExample(h: seq<int>, isRest: seq<bool>)
    requires h == [0, 1, 2] && isRest == [false, true, false, false, true]
    ensures |NonRestIndices(isRest)| == 3 && Reintroduced(h, isRest) == [0, -1, 2, 3, -1]
  {
    ExampleMaskPositions(isRest);
    var ns := NonRestIndices(isRest);
    ReintroducedAt(h, isRest);
    var r := Reintroduced(h, isRest);
    assert r[ns[0]] == 0 && r[ns[1]] == 2 && r[ns[2]] == 3;
    assert isRest[1] && isRest[4];
  }

  /** The cursor fill at one position: the value at a non-rest position i is the compact value
      at the cursor, which has counted the non-rest positions before i. */
  lemma {:induction false} FillNonRestsIndex(headSeq: seq<int>, isRest: seq<bool>, i: nat)
    requires i < |isRest| && |NonRestIndices(isRest)| <= |headSeq|
    ensures |NonRestIndices(isRest[..i])| + (if isRest[i] then 0 else 1) <= |NonRestIndices(isRest)|
    ensures FillNonRests(headSeq, isRest)[i] == if isRest[i] then -1 else headSeq[|NonRestIndices(isRest[..i])|]
    decreases |isRest|
  {
    var prefix := isRest[..|isRest| - 1];
    if i == |isRest| - 1 {
      assert prefix == isRest[..i];
    } else {
      assert prefix[..i] == isRest[..i];
      FillNonRestsIndex(headSeq, prefix, i);
    }
  }

  /** The cursor counts one more non-rest position after a non-rest. */
  lemma CursorStep(isRest: seq<bool>, i: nat)
    requires i < |isRest|
    ensures |NonRestIndices(isRest[..i + 1])| == |NonRestIndices(isRest[..i])| + (if isRest[i] then 0 else 1)
  {
    assert isRest[..i + 1][..i] == isRest[..i];
  }

  /** One step of the renumbering: the rest rs[t] is applied after rs[..t]. */
  lemma RenumberStep(v: int, rs: seq<nat>, t: nat)
    requires t < |rs|
    ensures Renumber(v, rs[..t + 1]) == Bump(Renumber(v, rs[..t]), rs[t])
  {
    assert rs[..t + 1][..t] == rs[..t];
  }

  /** The masked in-place update `a[a >= r] += 1`. */
  method ShiftFrom(a: array<int>, r: int)
    modifies a
    ensures forall j :: 0 <= j < a.Length ==> a[j] == Bump(old(a[j]), r)
  {
    var j := 0;
    while j < a.Length
      invariant 0 <= j <= a.Length
      invariant forall j' :: 0 <= j' < j ==> a[j'] == Bump(old(a[j']), r)
      invariant forall j' :: j <= j' < a.Length ==> a[j'] == old(a[j'])
    {
      if a[j] >= r {
        a[j] := a[j] + 1;
      }
      j := j + 1;
    }
  }

  /** The first loop of `reintroduce_rests`: a fresh array of -1, filled at every non-rest
      position from the cursor `newIdx` into the compact sequence. */
  method CursorFill(headSeq: seq<int>, isRest: seq<bool>) returns (newHeadSeq: array<int>)
    requires |NonRestIndices(isRest)| <= |headSeq|
    ensures fresh(newHeadSeq)
    ensures newHeadSeq[..] == FillNonRests(headSeq, isRest)
  {
    newHeadSeq := new int[|isRest|](_ => -1);
    var newIdx := 0;
    var i := 0;
    while i < |isRest|
      invariant 0 <= i <= |isRest| && newHeadSeq.Length == |isRest|
      invariant newIdx == |NonRestIndices(isRest[..i])|
      invariant forall j :: 0 <= j < i ==> newHeadSeq[j] == FillNonRests(headSeq, isRest)[j]
      invariant forall j :: i <= j < |isRest| ==> newHeadSeq[j] == -1
    {
      FillNonRestsIndex(headSeq, isRest, i);
      CursorStep(isRest, i);
      if !isRest[i] {
        newHeadSeq[i] := headSeq[newIdx];
        newIdx := newIdx + 1;
      }
      i := i + 1;
    }
  }

  /** `reintroduce_rests`: the cursor-driven fill, then, per rest index in ascending order,
      the in-place update "+1 to every value >= r". */
  method ReintroduceRests(headSeq: seq<int>, isRest: seq<bool>) returns (newHeadSeq: array<int>)
    requires |NonRestIndices(isRest)| <= |headSeq|
    ensures fresh(newHeadSeq)
    ensures newHeadSeq[..] == Reintroduced(headSeq, isRest)
  {
    var restIndices := RestIndices(isRest);
    newHeadSeq := CursorFill(headSeq, isRest);
    ghost var filled := newHeadSeq[..];
    var t := 0;
    while t < |restIndices|
      invariant 0 <= t <= |restIndices|
      invariant newHeadSeq.Length == |filled|
      invariant forall j :: 0 <= j < |filled| ==> newHeadSeq[j] == Renumber(filled[j], restIndices[..t])
    {
      ShiftFrom(newHeadSeq, restIndices[t]);
      forall j | 0 <= j < |filled|
        ensures newHeadSeq[j] == Renumber(filled[j], restIndices[..t + 1])
      {
        RenumberStep(filled[j], restIndices, t);
      }
      t := t + 1;
    }
    assert restIndices[..t] == restIndices;
  }
}
