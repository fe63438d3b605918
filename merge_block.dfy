/** The k-way merge of one block of equal suffixes (`Block` in src/bin/main3/block.rs,
    copied in src/bin/main3.rs, src/bin/main2.rs and, reading the rows from the
    `PFData` arrays, src/pf.rs). Each row k of the block is one suffix-array rank
    of the segment join; it walks the sorted right-context ranks of its segment,
    and every `next` emits the row whose current rank is smallest. */
module MergeBlock {
  import opened Wrappers
  import opened PfHelpers

  /** A current rank, or `usize::MAX`, which the source stores once a row's list is used up. */
  datatype Rank = Rank(value: nat) | Exhausted

  /** `<` on usize with `usize::MAX` for Exhausted: nothing is below Exhausted's left side. */
  predicate Less(a: Rank, b: Rank)
  {
    a.Rank? && (b.Exhausted? || a.value < b.value)
  }

  /** The rank at occurrence i of a list, `usize::MAX` past its end (`get(i)` is None). */
  function RankAt(list: seq<nat>, i: nat): Rank
  {
    if i < |list| then Rank(list[i]) else Exhausted
  }

  /** The index `argmin` settles on: the first position holding the least rank, 0 if none is below usize::MAX. */
  function FirstMin(data: seq<Rank>): (k: nat)
    ensures |data| == 0 ==> k == 0
    ensures |data| > 0 ==> k < |data| && forall j :: 0 <= j < |data| ==> !Less(data[j], data[k])
    ensures forall j :: 0 <= j < k ==> Less(data[k], data[j])
    decreases |data|
  {
    if |data| == 0 then 0
    else
      var prefix := data[..|data| - 1];
      var k := FirstMin(prefix);
      var least := if |prefix| == 0 then Exhausted else prefix[k];
      if Less(data[|data| - 1], least) then |data| - 1 else k
  }

  /** `argmin`: scan with a running minimum that starts at usize::MAX and moves only on a strict improvement. */
  method ArgMin(data: seq<Rank>) returns (minPos: nat)
    ensures minPos == FirstMin(data)
  {
    minPos := 0;
    var minVal := Exhausted;
    for p := 0 to |data|
      invariant minPos == FirstMin(data[..p])
      invariant minVal == if p == 0 then Exhausted else data[minPos]
    {
      assert data[..p + 1][..p] == data[..p];
      if Less(data[p], minVal) {
        minPos, minVal := p, data[p];
      }
    }
    assert data[..|data|] == data;
  }

  /** The least rank is `usize::MAX` exactly when every rank is. */
  lemma FirstMinExhausted(data: seq<Rank>)
    requires |data| > 0
    ensures data[FirstMin(data)].Exhausted? <==> forall j :: 0 <= j < |data| ==> data[j].Exhausted?
  {
    var k := FirstMin(data);
    if data[k].Exhausted? {
      forall j | 0 <= j < |data| ensures data[j].Exhausted? {
        assert !Less(data[j], data[k]);
      }
    }
  }

  /** The argmin test vectors: ties go to the first position, and usize::MAX everywhere gives 0. */
  lemma FirstMinExamples()
    ensures FirstMin([Rank(5), Rank(2), Rank(7), Rank(2)]) == 1
    ensures FirstMin([Exhausted, Rank(3), Exhausted]) == 1
    ensures FirstMin([Exhausted, Exhausted]) == 0
  {
    var a := [Rank(5), Rank(2), Rank(7), Rank(2)];
    assert a[..3] == [Rank(5), Rank(2), Rank(7)] && a[..3][..2] == [Rank(5), Rank(2)];
    assert a[..3][..2][..1] == [Rank(5)] && a[..3][..2][..1][..0] == [];
    var b := [Exhausted, Rank(3), Exhausted];
    assert b[..2] == [Exhausted, Rank(3)] && b[..2][..1] == [Exhausted] && b[..2][..1][..0] == [];
    var c := [Exhausted, Exhausted];
    assert c[..1] == [Exhausted] && c[..1][..0] == [];
  }

  /** Sum of a sequence of integers. */
  function Total(s: seq<int>): int
    decreases |s|
  {
    if |s| == 0 then 0 else Total(s[..|s| - 1]) + s[|s| - 1]
  }

  lemma {:induction false} TotalUpdate(s: seq<int>, k: nat, v: int)
    requires k < |s|
    ensures Total(s[k := v]) == Total(s) - s[k] + v
    decreases |s|
  {
    if k < |s| - 1 {
      assert s[k := v][..|s| - 1] == s[..|s| - 1][k := v];
      TotalUpdate(s[..|s| - 1], k, v);
    } else {
      assert s[k := v][..|s| - 1] == s[..|s| - 1];
    }
  }

  lemma {:induction false} TotalNonNegative(s: seq<int>)
    requires forall i :: 0 <= i < |s| ==> s[i] >= 0
    ensures Total(s) >= 0
    decreases |s|
  {
    if |s| > 0 { TotalNonNegative(s[..|s| - 1]); }
  }

  lemma {:induction false} TotalZero(s: seq<int>)
    requires forall i :: 0 <= i < |s| ==> s[i] == 0
    ensures Total(s) == 0
    decreases |s|
  {
    if |s| > 0 { TotalZero(s[..|s| - 1]); }
  }

  /** Occurrences each row has left: its segment's list length minus its next occurrence. */
  function Pending(id: seq<nat>, rcRank: seq<seq<nat>>, idx: seq<nat>): (p: seq<int>)
    ensures |p| == |idx|
    ensures forall k :: 0 <= k < |idx| && k < |id| && id[k] < |rcRank| ==> p[k] == |rcRank[id[k]]| - idx[k]
  {
    seq(|idx|, k requires 0 <= k < |idx| =>
      if k < |id| && id[k] < |rcRank| then |rcRank[id[k]]| - idx[k] else 0)
  }

  /** Every row points into its segment's list and holds the rank found there. */
  predicate RowsValid(id: seq<nat>, rcRank: seq<seq<nat>>, idx: seq<nat>, rcr: seq<Rank>)
  {
    |idx| == |id| && |rcr| == |id| &&
    forall k :: 0 <= k < |id| ==> RowOk(id, rcRank, idx, rcr, k)
  }

  /** Row k points into its segment's list and holds the rank found there. */
  predicate RowOk(id: seq<nat>, rcRank: seq<seq<nat>>, idx: seq<nat>, rcr: seq<Rank>, k: nat)
    requires k < |id| == |idx| == |rcr|
  {
    id[k] < |rcRank| && idx[k] <= |rcRank[id[k]]| && rcr[k] == RankAt(rcRank[id[k]], idx[k])
  }

  /** No row has a negative count of occurrences left. */
  lemma PendingNonNegative(id: seq<nat>, rcRank: seq<seq<nat>>, idx: seq<nat>, rcr: seq<Rank>)
    requires RowsValid(id, rcRank, idx, rcr)
    ensures Total(Pending(id, rcRank, idx)) >= 0
  {
    var p := Pending(id, rcRank, idx);
    forall j | 0 <= j < |p| ensures p[j] >= 0 {
      assert RowOk(id, rcRank, idx, rcr, j);
    }
    TotalNonNegative(p);
  }

  /** What `next` reads besides the ranks: an offset per row and a start per occurrence. */
  predicate Aligned(id: seq<nat>, pos: seq<nat>, seqPos: seq<seq<nat>>, rcRank: seq<seq<nat>>)
  {
    |id| <= |pos| &&
    forall k :: 0 <= k < |id| ==> id[k] < |seqPos| && id[k] < |rcRank| && |rcRank[id[k]]| <= |seqPos[id[k]]|
  }

  /** The rank lists of the rows are ascending, as `PFData::new` leaves them. */
  predicate SortedRows(id: seq<nat>, rcRank: seq<seq<nat>>)
  {
    forall k :: 0 <= k < |id| && id[k] < |rcRank| ==> Ascending(rcRank[id[k]])
  }

  /** The ranks emitted so far ascend, and none exceeds a rank still to come. */
  predicate MergedSoFar(consumed: seq<nat>, rcr: seq<Rank>)
  {
    Ascending(consumed) &&
    forall k :: 0 <= k < |rcr| && rcr[k].Rank? && |consumed| > 0 ==> consumed[|consumed| - 1] <= rcr[k].value
  }

  /** The state after one `next`: the emitted triple (None when every row is
      exhausted), the new occurrence indices and the new current ranks. */
  function NextOf(id: seq<nat>, pos: seq<nat>, seqPos: seq<seq<nat>>, rcRank: seq<seq<nat>>,
                  idx: seq<nat>, rcr: seq<Rank>): (Option<(nat, nat, nat)>, seq<nat>, seq<Rank>)
    requires RowsValid(id, rcRank, idx, rcr) && Aligned(id, pos, seqPos, rcRank) && |id| > 0
  {
    var k := FirstMin(rcr);
    assert RowOk(id, rcRank, idx, rcr, k);
    if rcr[k].Exhausted? then (None, idx, rcr)
    else
      var o := idx[k];
      (Some((seqPos[id[k]][o] + pos[k], id[k], pos[k])), idx[k := o + 1], rcr[k := RankAt(rcRank[id[k]], o + 1)])
  }

  /** The rank `next` takes: the least current one, if any is below usize::MAX. */
  function Drawn(rcr: seq<Rank>): seq<nat>
  {
    if |rcr| > 0 && rcr[FirstMin(rcr)].Rank? then [rcr[FirstMin(rcr)].value] else []
  }

  /** `next` returns None exactly when every row is exhausted, and then changes nothing. */
  lemma NextNone(id: seq<nat>, pos: seq<nat>, seqPos: seq<seq<nat>>, rcRank: seq<seq<nat>>, idx: seq<nat>, rcr: seq<Rank>)
    requires RowsValid(id, rcRank, idx, rcr) && Aligned(id, pos, seqPos, rcRank) && |id| > 0
    ensures var (r, idx', rcr') := NextOf(id, pos, seqPos, rcRank, idx, rcr);
      (r.None? <==> forall j :: 0 <= j < |id| ==> rcr[j].Exhausted?) &&
      (r.None? <==> Drawn(rcr) == []) &&
      (r.None? ==> idx' == idx && rcr' == rcr)
  {
    FirstMinExhausted(rcr);
  }

  /** A `next` that emits takes row k = argmin at its current occurrence o: the triple is
      that occurrence's start plus the row's offset, with the row's segment and offset;
      row k moves to occurrence o + 1 and no other row changes. */
  lemma NextEmits(id: seq<nat>, pos: seq<nat>, seqPos: seq<seq<nat>>, rcRank: seq<seq<nat>>, idx: seq<nat>, rcr: seq<Rank>)
    requires RowsValid(id, rcRank, idx, rcr) && Aligned(id, pos, seqPos, rcRank) && |id| > 0
    requires NextOf(id, pos, seqPos, rcRank, idx, rcr).0.Some?
    ensures var (r, idx', rcr') := NextOf(id, pos, seqPos, rcRank, idx, rcr);
      var k := FirstMin(rcr);
      k < |id| && RowOk(id, rcRank, idx, rcr, k) && idx[k] < |rcRank[id[k]]| && Drawn(rcr) == [rcRank[id[k]][idx[k]]] &&
      r.value == (seqPos[id[k]][idx[k]] + pos[k], id[k], pos[k]) &&
      |idx'| == |idx| && idx'[k] == idx[k] + 1 && |rcr'| == |rcr| &&
      (forall j :: 0 <= j < |id| && j != k ==> idx'[j] == idx[j] && rcr'[j] == rcr[j])
  {
  }

  /** Taking occurrence idx[k] of a row k whose current rank is not exhausted keeps every
      row pointing into its list and leaves one occurrence fewer outstanding. */
  lemma PickStep(id: seq<nat>, rcRank: seq<seq<nat>>, idx: seq<nat>, rcr: seq<Rank>, k: nat)
    requires RowsValid(id, rcRank, idx, rcr) && k < |id| && rcr[k].Rank?
    ensures RowOk(id, rcRank, idx, rcr, k)
    ensures idx[k] < |rcRank[id[k]]| && rcr[k].value == rcRank[id[k]][idx[k]]
    ensures RowsValid(id, rcRank, idx[k := idx[k] + 1], rcr[k := RankAt(rcRank[id[k]], idx[k] + 1)])
    ensures Total(Pending(id, rcRank, idx[k := idx[k] + 1])) == Total(Pending(id, rcRank, idx)) - 1
    ensures Total(Pending(id, rcRank, idx[k := idx[k] + 1])) >= 0
  {
    assert RowOk(id, rcRank, idx, rcr, k);
    var idx', rcr' := idx[k := idx[k] + 1], rcr[k := RankAt(rcRank[id[k]], idx[k] + 1)];
    forall j | 0 <= j < |id| ensures RowOk(id, rcRank, idx', rcr', j) {
      assert RowOk(id, rcRank, idx, rcr, j);
      if j == k {
        assert idx'[j] == idx[k] + 1;
      }
    }
    var gaps := Pending(id, rcRank, idx);
    assert Pending(id, rcRank, idx') == gaps[k := gaps[k] - 1];
    TotalUpdate(gaps, k, gaps[k] - 1);
    PendingNonNegative(id, rcRank, idx', rcr');
  }

  /** `next` keeps every row pointing into its list. */
  lemma NextKeepsRows(id: seq<nat>, pos: seq<nat>, seqPos: seq<seq<nat>>, rcRank: seq<seq<nat>>, idx: seq<nat>, rcr: seq<Rank>)
    requires RowsValid(id, rcRank, idx, rcr) && Aligned(id, pos, seqPos, rcRank) && |id| > 0
    ensures RowsValid(id, rcRank, NextOf(id, pos, seqPos, rcRank, idx, rcr).1, NextOf(id, pos, seqPos, rcRank, idx, rcr).2)
  {
    var k := FirstMin(rcr);
    if rcr[k].Rank? {
      PickStep(id, rcRank, idx, rcr, k);
    }
  }

  /** `next` uses up exactly the occurrence it emits. */
  lemma NextUsesOne(id: seq<nat>, pos: seq<nat>, seqPos: seq<seq<nat>>, rcRank: seq<seq<nat>>, idx: seq<nat>, rcr: seq<Rank>)
    requires RowsValid(id, rcRank, idx, rcr) && Aligned(id, pos, seqPos, rcRank) && |id| > 0
    ensures Total(Pending(id, rcRank, NextOf(id, pos, seqPos, rcRank, idx, rcr).1)) == Total(Pending(id, rcRank, idx)) - |Drawn(rcr)|
  {
    var k := FirstMin(rcr);
    NextCases(id, pos, seqPos, rcRank, idx, rcr, k);
    if rcr[k].Rank? {
      PickStep(id, rcRank, idx, rcr, k);
    }
  }

  /** What `Block::next` keeps, for its new state (r, idx', rcr'). */
  lemma NextKeeps(id: seq<nat>, pos: seq<nat>, seqPos: seq<seq<nat>>, rcRank: seq<seq<nat>>, idx: seq<nat>, rcr: seq<Rank>,
                  consumed: seq<nat>, r: Option<(nat, nat, nat)>, idx': seq<nat>, rcr': seq<Rank>)
    requires RowsValid(id, rcRank, idx, rcr) && Aligned(id, pos, seqPos, rcRank) && |id| > 0
    requires SortedRows(id, rcRank) ==> MergedSoFar(consumed, rcr)
    requires (r, idx', rcr') == NextOf(id, pos, seqPos, rcRank, idx, rcr)
    ensures RowsValid(id, rcRank, idx', rcr')
    ensures SortedRows(id, rcRank) ==> MergedSoFar(consumed + Drawn(rcr), rcr')
    ensures Total(Pending(id, rcRank, idx')) == Total(Pending(id, rcRank, idx)) - |Drawn(rcr)|
  {
    NextKeepsRows(id, pos, seqPos, rcRank, idx, rcr);
    NextUsesOne(id, pos, seqPos, rcRank, idx, rcr);
    if SortedRows(id, rcRank) {
      NextKeepsOrder(id, pos, seqPos, rcRank, idx, rcr, consumed);
    }
  }

  /** The two outcomes of `next` written out for row k = argmin. */
  lemma NextCases(id: seq<nat>, pos: seq<nat>, seqPos: seq<seq<nat>>, rcRank: seq<seq<nat>>, idx: seq<nat>, rcr: seq<Rank>, k: nat)
    requires RowsValid(id, rcRank, idx, rcr) && Aligned(id, pos, seqPos, rcRank) && |id| > 0
    requires k == FirstMin(rcr)
    ensures k < |id| && RowOk(id, rcRank, idx, rcr, k) && idx[k] <= |rcRank[id[k]]| && (rcr[k].Rank? ==> idx[k] < |rcRank[id[k]]| <= |seqPos[id[k]]|)
    ensures rcr[k].Exhausted? ==> NextOf(id, pos, seqPos, rcRank, idx, rcr) == (None, idx, rcr) && Drawn(rcr) == []
    ensures rcr[k].Rank? ==>
      NextOf(id, pos, seqPos, rcRank, idx, rcr) ==
        (Some((seqPos[id[k]][idx[k]] + pos[k], id[k], pos[k])), idx[k := idx[k] + 1], rcr[k := RankAt(rcRank[id[k]], idx[k] + 1)]) &&
      Drawn(rcr) == [rcr[k].value]
  {
  }

  /** With ascending lists, the rank `next` takes is no larger than any rank left afterwards,
      so the ranks it takes one after another ascend. */
  lemma NextKeepsOrder(id: seq<nat>, pos: seq<nat>, seqPos: seq<seq<nat>>, rcRank: seq<seq<nat>>, idx: seq<nat>, rcr: seq<Rank>, consumed: seq<nat>)
    requires RowsValid(id, rcRank, idx, rcr) && Aligned(id, pos, seqPos, rcRank) && |id| > 0
    requires SortedRows(id, rcRank) && MergedSoFar(consumed, rcr)
    ensures MergedSoFar(consumed + Drawn(rcr), NextOf(id, pos, seqPos, rcRank, idx, rcr).2)
  {
    var k := FirstMin(rcr);
    assert RowOk(id, rcRank, idx, rcr, k);
    if rcr[k].Rank? {
      var v := rcRank[id[k]][idx[k]];
      var next := rcr[k := RankAt(rcRank[id[k]], idx[k] + 1)];
      assert Ascending(rcRank[id[k]]);
      forall j | 0 <= j < |next| && next[j].Rank? ensures v <= next[j].value {
        if j != k { assert RowOk(id, rcRank, idx, rcr, j) && !Less(rcr[j], rcr[k]); }
      }
    }
  }

  // ---------------------------------------------------------------------------
  // The whole merge: the (row, occurrence) pairs repeated `next` calls take

  /** Every pair names a row and one of the occurrences of its segment. */
  predicate PicksIn(id: seq<nat>, rcRank: seq<seq<nat>>, ps: seq<(nat, nat)>)
  {
    forall t :: 0 <= t < |ps| ==> PickIn(id, rcRank, ps[t])
  }

  /** The pair (k, q) names row k and occurrence q of its segment. */
  predicate PickIn(id: seq<nat>, rcRank: seq<seq<nat>>, p: (nat, nat))
  {
    p.0 < |id| && id[p.0] < |rcRank| && p.1 < |rcRank[id[p.0]]|
  }

  /** The pairs (row, occurrence) that `next` takes from state (idx, rcr) on, in the
      order it takes them, until every row is exhausted. */
  function PickOrder(id: seq<nat>, rcRank: seq<seq<nat>>, idx: seq<nat>, rcr: seq<Rank>): (ps: seq<(nat, nat)>)
    requires RowsValid(id, rcRank, idx, rcr)
    ensures PicksIn(id, rcRank, ps)
    decreases Total(Pending(id, rcRank, idx))
  {
    if |id| == 0 then []
    else
      var k := FirstMin(rcr);
      if rcr[k].Exhausted? then []
      else
        PickStep(id, rcRank, idx, rcr, k);
        [(k, idx[k])] + PickOrder(id, rcRank, idx[k := idx[k] + 1], rcr[k := RankAt(rcRank[id[k]], idx[k] + 1)])
  }

  /** The right-context rank of each picked occurrence. */
  function RanksOf(id: seq<nat>, rcRank: seq<seq<nat>>, ps: seq<(nat, nat)>): (rs: seq<nat>)
    requires PicksIn(id, rcRank, ps)
    ensures |rs| == |ps|
  {
    seq(|ps|, t requires 0 <= t < |ps| => rcRank[id[ps[t].0]][ps[t].1])
  }

  /** The triple `next` yields for occurrence q of row k: the occurrence's start in
      the path text plus the row's offset, the row's segment and the offset. */
  function TripleAt(id: seq<nat>, pos: seq<nat>, seqPos: seq<seq<nat>>, rcRank: seq<seq<nat>>, p: (nat, nat)): (nat, nat, nat)
    requires PickIn(id, rcRank, p) && Aligned(id, pos, seqPos, rcRank)
  {
    (seqPos[id[p.0]][p.1] + pos[p.0], id[p.0], pos[p.0])
  }

  /** The triples `next` yields for the picked occurrences, in order. */
  function TriplesOf(id: seq<nat>, pos: seq<nat>, seqPos: seq<seq<nat>>, rcRank: seq<seq<nat>>,
                     ps: seq<(nat, nat)>): (out: seq<(nat, nat, nat)>)
    requires PicksIn(id, rcRank, ps) && Aligned(id, pos, seqPos, rcRank)
    ensures |out| == |ps|
  {
    seq(|ps|, t requires 0 <= t < |ps| =>
      TripleAt(id, pos, seqPos, rcRank, ps[t]))
  }

  /** Once no row has a rank left the merge takes nothing, and every row has used up
      its occurrences. */
  lemma PickOrderDone(id: seq<nat>, rcRank: seq<seq<nat>>, idx: seq<nat>, rcr: seq<Rank>)
    requires RowsValid(id, rcRank, idx, rcr) && (|id| == 0 || rcr[FirstMin(rcr)].Exhausted?)
    ensures PickOrder(id, rcRank, idx, rcr) == [] && Total(Pending(id, rcRank, idx)) == 0
    ensures forall j :: 0 <= j < |id| ==> RowOk(id, rcRank, idx, rcr, j) && idx[j] == |rcRank[id[j]]|
  {
    if |id| > 0 {
      FirstMinExhausted(rcr);
      forall j | 0 <= j < |id| ensures RowOk(id, rcRank, idx, rcr, j) && idx[j] == |rcRank[id[j]]| {
        assert RowOk(id, rcRank, idx, rcr, j);
      }
    }
    TotalZero(Pending(id, rcRank, idx));
  }

  /** Otherwise the merge takes row k = argmin at its current occurrence and goes on
      from the state `next` leaves. */
  lemma PickOrderStep(id: seq<nat>, rcRank: seq<seq<nat>>, idx: seq<nat>, rcr: seq<Rank>)
    requires RowsValid(id, rcRank, idx, rcr) && |id| > 0 && rcr[FirstMin(rcr)].Rank?
    ensures var k := FirstMin(rcr);
      k < |id| && RowOk(id, rcRank, idx, rcr, k) &&
      var idx', rcr' := idx[k := idx[k] + 1], rcr[k := RankAt(rcRank[id[k]], idx[k] + 1)];
      idx[k] < |rcRank[id[k]]| && rcr[k].value == rcRank[id[k]][idx[k]] &&
      RowsValid(id, rcRank, idx', rcr') &&
      Total(Pending(id, rcRank, idx')) == Total(Pending(id, rcRank, idx)) - 1 && Total(Pending(id, rcRank, idx')) >= 0 &&
      PickOrder(id, rcRank, idx, rcr) == [(k, idx[k])] + PickOrder(id, rcRank, idx', rcr')
  {
    PickStep(id, rcRank, idx, rcr, FirstMin(rcr));
  }

  /** A `next` call on the state (idx, rcr) returns None exactly when the merge from
      that state takes nothing... */
  lemma NextPickNone(id: seq<nat>, pos: seq<nat>, seqPos: seq<seq<nat>>, rcRank: seq<seq<nat>>,
                     idx: seq<nat>, rcr: seq<Rank>)
    requires RowsValid(id, rcRank, idx, rcr) && Aligned(id, pos, seqPos, rcRank) && |id| > 0
    ensures NextOf(id, pos, seqPos, rcRank, idx, rcr).0.None? <==> PickOrder(id, rcRank, idx, rcr) == []
  {
    var k := FirstMin(rcr);
    NextCases(id, pos, seqPos, rcRank, idx, rcr, k);
    if rcr[k].Rank? {
      PickOrderStep(id, rcRank, idx, rcr);
    } else {
      PickOrderDone(id, rcRank, idx, rcr);
    }
  }

  /** ...otherwise it yields the triple of the merge's first pair, and the merge from
      the new state (idx', rcr') is the rest. */
  lemma NextPick(id: seq<nat>, pos: seq<nat>, seqPos: seq<seq<nat>>, rcRank: seq<seq<nat>>,
                 idx: seq<nat>, rcr: seq<Rank>, r: Option<(nat, nat, nat)>, idx': seq<nat>, rcr': seq<Rank>)
    requires RowsValid(id, rcRank, idx, rcr) && Aligned(id, pos, seqPos, rcRank) && |id| > 0
    requires (r, idx', rcr') == NextOf(id, pos, seqPos, rcRank, idx, rcr) && r.Some?
    ensures RowsValid(id, rcRank, idx', rcr') && PickOrder(id, rcRank, idx, rcr) != []
    ensures PickOrder(id, rcRank, idx, rcr) == [PickOrder(id, rcRank, idx, rcr)[0]] + PickOrder(id, rcRank, idx', rcr')
    ensures PickIn(id, rcRank, PickOrder(id, rcRank, idx, rcr)[0])
    ensures r.value == TripleAt(id, pos, seqPos, rcRank, PickOrder(id, rcRank, idx, rcr)[0])
  {
    var k := FirstMin(rcr);
    assert k < |id| && RowOk(id, rcRank, idx, rcr, k) && idx[k] < |rcRank[id[k]]| <= |seqPos[id[k]]| && rcr[k].Rank? &&
           r == Some((seqPos[id[k]][idx[k]] + pos[k], id[k], pos[k])) &&
           idx' == idx[k := idx[k] + 1] && rcr' == rcr[k := RankAt(rcRank[id[k]], idx[k] + 1)] by {
      NextCases(id, pos, seqPos, rcRank, idx, rcr, k);
    }
    PickOrderNext(id, rcRank, idx, rcr, k, idx', rcr');
    assert PickIn(id, rcRank, (k, idx[k]));
  }

  /** `PickOrderStep` for a given argmin row k and successor state (idx', rcr'). */
  lemma PickOrderNext(id: seq<nat>, rcRank: seq<seq<nat>>, idx: seq<nat>, rcr: seq<Rank>, k: nat, idx': seq<nat>, rcr': seq<Rank>)
    requires RowsValid(id, rcRank, idx, rcr) && |id| > 0 && k == FirstMin(rcr) && k < |id| && RowOk(id, rcRank, idx, rcr, k) && rcr[k].Rank?
    requires idx[k] < |rcRank[id[k]]| && idx' == idx[k := idx[k] + 1] && rcr' == rcr[k := RankAt(rcRank[id[k]], idx[k] + 1)]
    ensures RowsValid(id, rcRank, idx', rcr')
    ensures PickOrder(id, rcRank, idx, rcr) == [(k, idx[k])] + PickOrder(id, rcRank, idx', rcr')
  {
    PickStep(id, rcRank, idx, rcr, k);
  }

  lemma SnocAssoc<T>(a: seq<T>, x: T, b: seq<T>)
    ensures a + ([x] + b) == (a + [x]) + b
  {
  }

  /** The triples of the pairs taken so far and one more. */
  lemma TriplesSnoc(id: seq<nat>, pos: seq<nat>, seqPos: seq<seq<nat>>, rcRank: seq<seq<nat>>,
                    done: seq<(nat, nat)>, ps: seq<(nat, nat)>)
    requires Aligned(id, pos, seqPos, rcRank) && PicksIn(id, rcRank, done) && PicksIn(id, rcRank, ps) && |ps| > 0
    ensures PickIn(id, rcRank, ps[0]) && PicksIn(id, rcRank, done + [ps[0]])
    ensures TriplesOf(id, pos, seqPos, rcRank, done + [ps[0]]) ==
      TriplesOf(id, pos, seqPos, rcRank, done) + [TripleAt(id, pos, seqPos, rcRank, ps[0])]
  {
    assert PickIn(id, rcRank, ps[0]);
  }

  /** The pair (k, q) is still to come: row k has used fewer than q + 1 of its occurrences. */
  predicate Owed(id: seq<nat>, rcRank: seq<seq<nat>>, idx: seq<nat>, p: (nat, nat))
  {
    p.0 < |id| && p.0 < |idx| && id[p.0] < |rcRank| && idx[p.0] <= p.1 < |rcRank[id[p.0]]|
  }

  /** Taking (k, idx[k]) in front of the pairs owed after it gives the pairs owed before. */
  lemma OwedCons(id: seq<nat>, rcRank: seq<seq<nat>>, idx: seq<nat>, k: nat, rest: seq<(nat, nat)>)
    requires k < |id| == |idx| && id[k] < |rcRank| && idx[k] < |rcRank[id[k]]|
    requires forall p :: p in rest <==> Owed(id, rcRank, idx[k := idx[k] + 1], p)
    ensures forall p :: p in [(k, idx[k])] + rest <==> Owed(id, rcRank, idx, p)
    ensures (k, idx[k]) !in rest
  {
    forall p ensures p in [(k, idx[k])] + rest <==> Owed(id, rcRank, idx, p) {
      assert p in [(k, idx[k])] + rest <==> p == (k, idx[k]) || p in rest;
    }
  }

  /** The merge takes each outstanding occurrence of every row: a pair is taken exactly
      when it is owed, and there are as many pairs as occurrences outstanding. */
  lemma {:induction false} PickOrderMembers(id: seq<nat>, rcRank: seq<seq<nat>>, idx: seq<nat>, rcr: seq<Rank>)
    requires RowsValid(id, rcRank, idx, rcr)
    ensures |PickOrder(id, rcRank, idx, rcr)| == Total(Pending(id, rcRank, idx))
    ensures forall p :: p in PickOrder(id, rcRank, idx, rcr) <==> Owed(id, rcRank, idx, p)
    decreases Total(Pending(id, rcRank, idx))
  {
    if |id| == 0 || rcr[FirstMin(rcr)].Exhausted? {
      PickOrderDone(id, rcRank, idx, rcr);
    } else {
      PickOrderStep(id, rcRank, idx, rcr);
      var k := FirstMin(rcr);
      var idx', rcr' := idx[k := idx[k] + 1], rcr[k := RankAt(rcRank[id[k]], idx[k] + 1)];
      PickOrderMembers(id, rcRank, idx', rcr');
      OwedCons(id, rcRank, idx, k, PickOrder(id, rcRank, idx', rcr'));
    }
  }

  /** Where the merge takes an owed pair. */
  lemma PickOrderFinds(id: seq<nat>, rcRank: seq<seq<nat>>, idx: seq<nat>, rcr: seq<Rank>, p: (nat, nat)) returns (t: nat)
    requires RowsValid(id, rcRank, idx, rcr) && Owed(id, rcRank, idx, p)
    ensures t < |PickOrder(id, rcRank, idx, rcr)| && PickOrder(id, rcRank, idx, rcr)[t] == p
  {
    PickOrderMembers(id, rcRank, idx, rcr);
    var ps := PickOrder(id, rcRank, idx, rcr);
    assert p in ps;
    t :| 0 <= t < |ps| && ps[t] == p;
  }

  predicate Distinct<T(==)>(s: seq<T>)
  {
    forall t, u :: 0 <= t < u < |s| ==> s[t] != s[u]
  }

  lemma DistinctCons<T>(x: T, rest: seq<T>)
    requires x !in rest && Distinct(rest)
    ensures Distinct([x] + rest)
  {
    var s := [x] + rest;
    forall t, u | 0 <= t < u < |s| ensures s[t] != s[u] {
      assert s[u] == rest[u - 1];
      if t > 0 {
        assert s[t] == rest[t - 1];
      }
    }
  }

  /** ...and takes none of them twice. */
  lemma {:induction false} PickOrderDistinct(id: seq<nat>, rcRank: seq<seq<nat>>, idx: seq<nat>, rcr: seq<Rank>)
    requires RowsValid(id, rcRank, idx, rcr)
    ensures Distinct(PickOrder(id, rcRank, idx, rcr))
    decreases Total(Pending(id, rcRank, idx))
  {
    if |id| == 0 || rcr[FirstMin(rcr)].Exhausted? {
      PickOrderDone(id, rcRank, idx, rcr);
    } else {
      PickOrderStep(id, rcRank, idx, rcr);
      var k := FirstMin(rcr);
      var idx', rcr' := idx[k := idx[k] + 1], rcr[k := RankAt(rcRank[id[k]], idx[k] + 1)];
      var rest := PickOrder(id, rcRank, idx', rcr');
      PickOrderDistinct(id, rcRank, idx', rcr');
      PickOrderMembers(id, rcRank, idx', rcr');
      OwedCons(id, rcRank, idx, k, rest);
      DistinctCons((k, idx[k]), rest);
    }
  }

  /** With ascending rank lists, no rank the merge takes from (idx, rcr) on is below the
      current rank of the row it comes from... */
  lemma PickOrderAbove(id: seq<nat>, rcRank: seq<seq<nat>>, idx: seq<nat>, rcr: seq<Rank>, u: nat)
    requires RowsValid(id, rcRank, idx, rcr) && SortedRows(id, rcRank)
    requires u < |PickOrder(id, rcRank, idx, rcr)|
    ensures var (j, q) := PickOrder(id, rcRank, idx, rcr)[u];
      rcr[j].Rank? && rcr[j].value <= rcRank[id[j]][q]
  {
    var ps := PickOrder(id, rcRank, idx, rcr);
    PickOrderMembers(id, rcRank, idx, rcr);
    var (j, q) := ps[u];
    assert ps[u] in ps;
    assert RowOk(id, rcRank, idx, rcr, j);
    assert Ascending(rcRank[id[j]]);
  }

  /** ...so every rank the merge takes after its first pair is at least the first one. */
  lemma RestAbove(id: seq<nat>, rcRank: seq<seq<nat>>, idx: seq<nat>, rcr: seq<Rank>)
    requires RowsValid(id, rcRank, idx, rcr) && SortedRows(id, rcRank) && |id| > 0 && rcr[FirstMin(rcr)].Rank?
    ensures var k := FirstMin(rcr);
      k < |id| && RowOk(id, rcRank, idx, rcr, k) &&
      var idx', rcr' := idx[k := idx[k] + 1], rcr[k := RankAt(rcRank[id[k]], idx[k] + 1)];
      RowsValid(id, rcRank, idx', rcr') &&
      var rs := RanksOf(id, rcRank, PickOrder(id, rcRank, idx', rcr'));
      forall u :: 0 <= u < |rs| ==> rcr[k].value <= rs[u]
  {
    PickOrderStep(id, rcRank, idx, rcr);
    var k := FirstMin(rcr);
    var idx', rcr' := idx[k := idx[k] + 1], rcr[k := RankAt(rcRank[id[k]], idx[k] + 1)];
    var rest := PickOrder(id, rcRank, idx', rcr');
    var rs := RanksOf(id, rcRank, rest);
    forall u | 0 <= u < |rs| ensures rcr[k].value <= rs[u] {
      PickOrderAbove(id, rcRank, idx', rcr', u);
      var j := rest[u].0;
      if j != k {
        assert RowOk(id, rcRank, idx, rcr, j) && !Less(rcr[j], rcr[k]) && rcr'[j] == rcr[j];
      } else {
        assert Ascending(rcRank[id[k]]);
      }
    }
  }

  lemma AscendingCons(v: nat, rs: seq<nat>)
    requires Ascending(rs) && forall u :: 0 <= u < |rs| ==> v <= rs[u]
    ensures Ascending([v] + rs)
  {
    var s := [v] + rs;
    forall t, u | 0 <= t < u < |s| ensures s[t] <= s[u] {
      assert s[u] == rs[u - 1];
      if t > 0 {
        assert s[t] == rs[t - 1];
      }
    }
  }

  /** With ascending rank lists the merge takes the occurrences in ascending rank order. */
  lemma {:induction false} PickOrderSorted(id: seq<nat>, rcRank: seq<seq<nat>>, idx: seq<nat>, rcr: seq<Rank>)
    requires RowsValid(id, rcRank, idx, rcr) && SortedRows(id, rcRank)
    ensures Ascending(RanksOf(id, rcRank, PickOrder(id, rcRank, idx, rcr)))
    decreases Total(Pending(id, rcRank, idx))
  {
    if |id| == 0 || rcr[FirstMin(rcr)].Exhausted? {
      PickOrderDone(id, rcRank, idx, rcr);
      return;
    }
    PickOrderStep(id, rcRank, idx, rcr);
    RestAbove(id, rcRank, idx, rcr);
    var k := FirstMin(rcr);
    var idx', rcr' := idx[k := idx[k] + 1], rcr[k := RankAt(rcRank[id[k]], idx[k] + 1)];
    var rest := PickOrder(id, rcRank, idx', rcr');
    PickOrderSorted(id, rcRank, idx', rcr');
    AscendingCons(rcr[k].value, RanksOf(id, rcRank, rest));
    assert RanksOf(id, rcRank, [(k, idx[k])] + rest) == [rcr[k].value] + RanksOf(id, rcRank, rest);
  }

  /** One turn of the drain loop: from the pairs `done` already taken, whose triples are
      `out`, a `next` call either ends the merge, every row used up, or takes the merge's
      next pair, whose triple it returns. */
  lemma DrainStep(id: seq<nat>, pos: seq<nat>, seqPos: seq<seq<nat>>, rcRank: seq<seq<nat>>,
                  idx: seq<nat>, rcr: seq<Rank>, r: Option<(nat, nat, nat)>, idx': seq<nat>, rcr': seq<Rank>,
                  picks: seq<(nat, nat)>, done: seq<(nat, nat)>, out: seq<(nat, nat, nat)>)
    returns (done': seq<(nat, nat)>)
    requires RowsValid(id, rcRank, idx, rcr) && Aligned(id, pos, seqPos, rcRank) && |id| > 0
    requires (r, idx', rcr') == NextOf(id, pos, seqPos, rcRank, idx, rcr)
    requires PicksIn(id, rcRank, done) && picks == done + PickOrder(id, rcRank, idx, rcr)
    requires out == TriplesOf(id, pos, seqPos, rcRank, done)
    ensures RowsValid(id, rcRank, idx', rcr') && Total(Pending(id, rcRank, idx')) >= 0
    ensures r.None? ==> Total(Pending(id, rcRank, idx')) == 0 && picks == done
    ensures r.None? ==> forall k :: 0 <= k < |id| ==> rcr'[k].Exhausted? && idx'[k] == |rcRank[id[k]]|
    ensures r.Some? ==> |Drawn(rcr)| == 1
    ensures r.Some? ==> PicksIn(id, rcRank, done') && picks == done' + PickOrder(id, rcRank, idx', rcr')
    ensures r.Some? ==> out + [r.value] == TriplesOf(id, pos, seqPos, rcRank, done')
  {
    NextNone(id, pos, seqPos, rcRank, idx, rcr);
    NextPickNone(id, pos, seqPos, rcRank, idx, rcr);
    NextKeepsRows(id, pos, seqPos, rcRank, idx, rcr);
    PendingNonNegative(id, rcRank, idx', rcr');
    done' := done;
    if r.None? {
      PickOrderDone(id, rcRank, idx', rcr');
      return;
    }
    NextPick(id, pos, seqPos, rcRank, idx, rcr, r, idx', rcr');
    var ps := PickOrder(id, rcRank, idx, rcr);
    TriplesSnoc(id, pos, seqPos, rcRank, done, ps);
    SnocAssoc(done, ps[0], PickOrder(id, rcRank, idx', rcr'));
    done' := done + [ps[0]];
  }

  /** The current ranks `Block::new` starts from: the first rank of each row's segment. */
  function FirstRanks(id: seq<nat>, rcRank: seq<seq<nat>>): (rcr: seq<Rank>)
    requires forall k :: 0 <= k < |id| ==> id[k] < |rcRank|
    ensures RowsValid(id, rcRank, seq(|id|, _ => 0), rcr)
  {
    seq(|id|, k requires 0 <= k < |id| => RankAt(rcRank[id[k]], 0))
  }

  class Block {
    /** Segment id of each row (id[start..end] of the block). */
    const id: seq<nat>
    /** Offset in the segment of each row. */
    const pos: seq<nat>
    /** Start offsets in the path text of each segment's occurrences, aligned with rcRank. */
    const seqPos: seq<seq<nat>>
    /** Right-context ranks of each segment's occurrences, sorted by `PFData::new`. */
    const rcRank: seq<seq<nat>>
    /** Next occurrence of each row. */
    var idx: seq<nat>
    /** Current rank of each row, Exhausted once its occurrences are used up. */
    var rcr: seq<Rank>
    /** The ranks emitted so far, in order. */
    ghost var consumed: seq<nat>

    /** Every row points into its segment's list, and (with sorted lists) the ranks
        emitted so far ascend and none exceeds a current one. */
    ghost predicate Valid()
      reads this
    {
      RowsValid(id, rcRank, idx, rcr) && (SortedRows(id, rcRank) ==> MergedSoFar(consumed, rcr))
    }

    /** Occurrences not yet emitted, over all rows. */
    ghost function Outstanding(): int
      reads this
    {
      Total(Pending(id, rcRank, idx))
    }

    /** `Block::new`: every row starts at occurrence 0, with the first rank of its segment. */
    constructor (id: seq<nat>, pos: seq<nat>, seqPos: seq<seq<nat>>, rcRank: seq<seq<nat>>)
      requires forall k :: 0 <= k < |id| ==> id[k] < |rcRank| && |rcRank[id[k]]| > 0
      ensures this.id == id && this.pos == pos && this.seqPos == seqPos && this.rcRank == rcRank
      ensures idx == seq(|id|, _ => 0) && consumed == []
      ensures |rcr| == |id| && forall k :: 0 <= k < |id| ==> rcr[k] == Rank(rcRank[id[k]][0])
      ensures rcr == FirstRanks(id, rcRank) && Valid()
    {
      var ranks: seq<Rank> := [];
      for k := 0 to |id|
        invariant |ranks| == k && forall j :: 0 <= j < k ==> ranks[j] == Rank(rcRank[id[j]][0])
      {
        ranks := ranks + [Rank(rcRank[id[k]][0])];
      }
      this.id, this.pos, this.seqPos, this.rcRank := id, pos, seqPos, rcRank;
      idx := seq(|id|, _ => 0);
      rcr := ranks;
      consumed := [];
    }

    /** `next`: the argmin row emits and moves on, as `NextOf` states; the rank it
        takes is recorded. */
    method Next() returns (r: Option<(nat, nat, nat)>)
      requires Valid() && Aligned(id, pos, seqPos, rcRank) && |id| > 0
      modifies this
      ensures (r, idx, rcr) == NextOf(id, pos, seqPos, rcRank, old(idx), old(rcr))
      ensures consumed == old(consumed) + Drawn(old(rcr))
      ensures Valid() && Outstanding() == old(Outstanding()) - |Drawn(old(rcr))|
    {
      var i, c := idx, rcr;
      ghost var done := consumed;
      var k := ArgMin(c);
      NextCases(id, pos, seqPos, rcRank, i, c, k);
      if c[k].Exhausted? {
        NextKeeps(id, pos, seqPos, rcRank, i, c, done, None, i, c);
        consumed := done + Drawn(c);
        return None;
      }
      var o := i[k];
      r := Some((seqPos[id[k]][o] + pos[k], id[k], pos[k]));
      var i', c' := i[k := o + 1], c[k := RankAt(rcRank[id[k]], o + 1)];
      NextKeeps(id, pos, seqPos, rcRank, i, c, done, r, i', c');
      idx, rcr, consumed := i', c', done + Drawn(c);
    }

    /** The rows of a block hold `Outstanding()` occurrences, none of them negative. */
    lemma OutstandingNonNegative()
      requires Valid()
      ensures Outstanding() >= 0
    {
      PendingNonNegative(id, rcRank, idx, rcr);
    }

    /** The `for (sa, id, pos) in block` loop: draining the block yields the triple of
        every pair the merge takes, in that order: by `PickOrderMembers` and
        `PickOrderDistinct` each outstanding occurrence of every row once, and by
        `PickOrderSorted` ascending by rank. */
    method Drain() returns (out: seq<(nat, nat, nat)>)
      requires Valid() && Aligned(id, pos, seqPos, rcRank) && |id| > 0
      modifies this
      ensures Valid() && forall k :: 0 <= k < |id| ==> rcr[k].Exhausted? && idx[k] == |rcRank[id[k]]|
      ensures out == TriplesOf(id, pos, seqPos, rcRank, PickOrder(id, rcRank, old(idx), old(rcr)))
      ensures |out| == old(Outstanding())
    {
      out := [];
      ghost var picks := PickOrder(id, rcRank, idx, rcr);
      ghost var done: seq<(nat, nat)> := [];
      OutstandingNonNegative();
      while true
        invariant Valid() && |out| + Outstanding() == old(Outstanding())
        invariant PicksIn(id, rcRank, done) && picks == done + PickOrder(id, rcRank, idx, rcr)
        invariant out == TriplesOf(id, pos, seqPos, rcRank, done)
        decreases Outstanding()
      {
        ghost var (idx0, rcr0) := (idx, rcr);
        var r := Next();
        done := DrainStep(id, pos, seqPos, rcRank, idx0, rcr0, r, idx, rcr, picks, done, out);
        if r.None? {
          return;
        }
        out := out + [r.value];
      }
    }
  }
}
