/** The array helpers of the prefix-free tag-array construction (src/pf.rs,
    copied in src/bin/main3/pf.rs, src/bin/main3.rs and src/bin/main2.rs):
    joining segments and paths with separators, mapping text positions to a
    segment id and offset, the start offset and right-context rank of every
    path occurrence of a segment, and the per-segment sort that aligns them. */
module PfHelpers {
  import opened Permutations
  import SuffixArrays

  // ---------------------------------------------------------------------------
  // join

  /** Every element raised by 2, so that 0 and 1 stay free for separators. */
  function Shift(v: seq<nat>): (r: seq<nat>)
    ensures |r| == |v|
    ensures forall i :: 0 <= i < |v| ==> r[i] == v[i] + 2
  {
    seq(|v|, i requires 0 <= i < |v| => v[i] + 2)
  }

  /** The vectors shifted and each followed by the separator 1. */
  function Joined(slice: seq<seq<nat>>): seq<nat>
    decreases |slice|
  {
    if |slice| == 0 then [] else Shift(slice[0]) + [1] + Joined(slice[1..])
  }

  /** What `join` returns: the separated vectors and a final 0. */
  function JoinOf(slice: seq<seq<nat>>): seq<nat>
  {
    Joined(slice) + [0]
  }

  /** Total number of elements in the vectors. */
  function TotalLen(slice: seq<seq<nat>>): nat
    decreases |slice|
  {
    if |slice| == 0 then 0 else |slice[0]| + TotalLen(slice[1..])
  }

  lemma {:induction false} JoinedSnoc(slice: seq<seq<nat>>, v: seq<nat>)
    ensures Joined(slice + [v]) == Joined(slice) + Shift(v) + [1]
    decreases |slice|
  {
    if |slice| == 0 {
      assert (slice + [v])[1..] == [];
    } else {
      assert (slice + [v])[1..] == slice[1..] + [v];
      JoinedSnoc(slice[1..], v);
    }
  }

  /** `join`: for each vector, its elements plus 2 and then a 1; a 0 at the end.
      `maxValue` is the largest value of the element type (255 for the byte
      segments, usize::MAX for the paths): the source adds 2 without a check. */
  method Join(slice: seq<seq<nat>>, maxValue: nat) returns (r: seq<nat>)
    requires forall k, i :: 0 <= k < |slice| && 0 <= i < |slice[k]| ==> slice[k][i] + 2 <= maxValue
    ensures r == JoinOf(slice)
  {
    r := [];
    for k := 0 to |slice|
      invariant r == Joined(slice[..k])
    {
      var v := Shift(slice[k]);
      r := r + v;
      r := r + [1];
      JoinedSnoc(slice[..k], slice[k]);
      assert slice[..k + 1] == slice[..k] + [slice[k]];
    }
    assert slice[..|slice|] == slice;
    r := r + [0];
  }

  /** The output has one element per input element, one separator per vector and the final 0. */
  lemma {:induction false} JoinLength(slice: seq<seq<nat>>)
    ensures |JoinOf(slice)| == TotalLen(slice) + |slice| + 1
    decreases |slice|
  {
    if |slice| > 0 { JoinLength(slice[1..]); }
  }

  /** Index of the first 1 in `s`, or |s|. */
  function FirstSep(s: seq<nat>): (i: nat)
    ensures i <= |s| && (i < |s| ==> s[i] == 1)
    ensures forall j :: 0 <= j < i ==> s[j] != 1
    decreases |s|
  {
    if |s| == 0 then 0 else if s[0] == 1 then 0 else 1 + FirstSep(s[1..])
  }

  /** Reading the vectors back: cut before the final 0, at every 1, and subtract 2. */
  function Separate(s: seq<nat>): seq<seq<nat>>
    decreases |s|
  {
    if |s| <= 1 then []
    else
      var i := FirstSep(s);
      if i == |s| then []
      else [seq(i, j requires 0 <= j < i => if s[j] >= 2 then s[j] - 2 else 0)] + Separate(s[i + 1..])
  }

  /** 0 and 1 occur in the output only as separators: cutting at them gives back the input. */
  lemma {:induction false} SeparateJoin(slice: seq<seq<nat>>)
    ensures Separate(JoinOf(slice)) == slice
    decreases |slice|
  {
    if |slice| > 0 {
      var v := slice[0];
      var s := JoinOf(slice);
      var rest := JoinOf(slice[1..]);
      assert s == Shift(v) + [1] + rest;
      FirstSepAfter(Shift(v), rest);
      assert s[|v| + 1..] == rest;
      assert seq(|v|, j requires 0 <= j < |v| => if s[j] >= 2 then s[j] - 2 else 0) == v;
      SeparateJoin(slice[1..]);
    }
  }

  lemma FirstSepAfter(a: seq<nat>, rest: seq<nat>)
    requires forall j :: 0 <= j < |a| ==> a[j] >= 2
    ensures FirstSep(a + [1] + rest) == |a|
  {
    var s := a + [1] + rest;
    assert s[|a|] == 1;
    assert forall j :: 0 <= j < |a| ==> s[j] == a[j] && s[j] != 1;
  }

  /** The output ends with its only 0; every other element is a separator 1 or a shifted value. */
  lemma {:induction false} JoinShape(slice: seq<seq<nat>>)
    ensures var r := JoinOf(slice); r[|r| - 1] == 0 && forall i :: 0 <= i < |r| - 1 ==> r[i] >= 1
    decreases |slice|
  {
    if |slice| > 0 {
      JoinShape(slice[1..]);
      var r := JoinOf(slice);
      var a := Shift(slice[0]) + [1];
      assert r == a + JoinOf(slice[1..]);
      forall i | 0 <= i < |r| - 1 ensures r[i] >= 1 {
        if i >= |a| { assert r[i] == JoinOf(slice[1..])[i - |a|]; }
      }
    }
  }

  // ---------------------------------------------------------------------------
  // get_lengths

  /** `get_lengths`: the segment lengths, then one more entry 1 (the length given
      to the id that the final sentinel of the segment join receives). */
  method Lengths(segments: seq<seq<nat>>) returns (len: seq<nat>)
    ensures |len| == |segments| + 1 && len[|segments|] == 1
    ensures forall k :: 0 <= k < |segments| ==> len[k] == |segments[k]|
  {
    len := [];
    for k := 0 to |segments|
      invariant |len| == k && forall j :: 0 <= j < k ==> len[j] == |segments[j]|
    {
      len := len + [|segments[k]|];
    }
    len := len + [1];
  }

  // ---------------------------------------------------------------------------
  // get_node_ids / get_node_pos

  /** Number of separators 1 in `s`. */
  function SepCount(s: seq<nat>): nat
    decreases |s|
  {
    if |s| == 0 then 0 else SepCount(s[..|s| - 1]) + (if s[|s| - 1] == 1 then 1 else 0)
  }

  /** Number of elements after the last separator 1 of `s` (all of them if there is none). */
  function SinceSep(s: seq<nat>): nat
    decreases |s|
  {
    if |s| == 0 then 0 else if s[|s| - 1] == 1 then 0 else SinceSep(s[..|s| - 1]) + 1
  }

  /** `get_node_ids`: at rank isa[i] of every text position i, the number of
      separators before i, that is the id of the segment holding position i. */
  method NodeIds(join: seq<nat>, isa: seq<nat>) returns (ids: seq<nat>)
    requires |join| <= |isa| && forall i :: 0 <= i < |join| ==> isa[i] < |join|
    ensures |ids| == |join|
    ensures IsPermutation(isa) ==> forall i :: 0 <= i < |join| ==> ids[isa[i]] == SepCount(join[..i])
  {
    var a := new nat[|join|](_ => 0);
    var id := 0;
    for i := 0 to |join|
      invariant id == SepCount(join[..i])
      invariant IsPermutation(isa) ==> forall k :: 0 <= k < i ==> a[isa[k]] == SepCount(join[..k])
    {
      a[isa[i]] := id;
      if join[i] == 1 { id := id + 1; }
      assert join[..i + 1][..i] == join[..i];
    }
    ids := a[..];
  }

  /** `get_node_pos`: at rank isa[i] of every text position i, its offset from the
      start of its segment (a separator gets the segment's length). */
  method NodePos(join: seq<nat>, isa: seq<nat>) returns (pos: seq<nat>)
    requires |join| <= |isa| && forall i :: 0 <= i < |join| ==> isa[i] < |join|
    ensures |pos| == |join|
    ensures IsPermutation(isa) ==> forall i :: 0 <= i < |join| ==> pos[isa[i]] == SinceSep(join[..i])
  {
    var a := new nat[|join|](_ => 0);
    var p := 0;
    for i := 0 to |join|
      invariant p == SinceSep(join[..i])
      invariant IsPermutation(isa) ==> forall k :: 0 <= k < i ==> a[isa[k]] == SinceSep(join[..k])
    {
      a[isa[i]] := p;
      p := p + 1;
      if join[i] == 1 { p := 0; }
      assert join[..i + 1][..i] == join[..i];
    }
    pos := a[..];
  }

  /** Position of offset 0 of segment k in the segment join. */
  function SegStart(slice: seq<seq<nat>>, k: nat): nat
    requires k <= |slice|
    decreases k
  {
    if k == 0 then 0 else |slice[0]| + 1 + SegStart(slice[1..], k - 1)
  }

  lemma {:induction false} SepCountAppend(a: seq<nat>, b: seq<nat>)
    ensures SepCount(a + b) == SepCount(a) + SepCount(b)
    decreases |b|
  {
    if |b| == 0 {
      assert a + b == a;
    } else {
      assert (a + b)[..|a + b| - 1] == a + b[..|b| - 1];
      assert (a + b)[|a + b| - 1] == b[|b| - 1];
      SepCountAppend(a, b[..|b| - 1]);
    }
  }

  lemma {:induction false} SinceSepAfterSep(a: seq<nat>, b: seq<nat>)
    requires |a| > 0 && a[|a| - 1] == 1
    ensures SinceSep(a + b) == SinceSep(b)
    decreases |b|
  {
    if |b| > 0 {
      assert (a + b)[..|a + b| - 1] == a + b[..|b| - 1];
      SinceSepAfterSep(a, b[..|b| - 1]);
    }
  }

  /** A shifted vector followed by its separator holds exactly one separator. */
  lemma SeparatedCount(v: seq<nat>)
    ensures SepCount(Shift(v) + [1]) == 1
  {
    SepCountAppend(Shift(v), [1]);
    InsideShift(v, |v|);
    assert Shift(v)[..|v|] == Shift(v);
    assert [1][..0] == [];
  }

  lemma {:induction false} InsideShift(v: seq<nat>, o: nat)
    requires o <= |v|
    ensures SepCount(Shift(v)[..o]) == 0 && SinceSep(Shift(v)[..o]) == o
    decreases o
  {
    if o > 0 {
      assert Shift(v)[..o][..o - 1] == Shift(v)[..o - 1];
      InsideShift(v, o - 1);
    }
  }

  /** Offset o of segment k (o = |segment| is the separator after it) sits at
      SegStart(k) + o, after exactly k separators and o elements of its own segment. */
  lemma JoinPosition(slice: seq<seq<nat>>, k: nat, o: nat)
    requires k < |slice| && o <= |slice[k]|
    ensures SegStart(slice, k) + o < |Joined(slice)|
    ensures Joined(slice)[SegStart(slice, k) + o] == if o < |slice[k]| then slice[k][o] + 2 else 1
    ensures SepCount(Joined(slice)[..SegStart(slice, k) + o]) == k
    ensures SinceSep(Joined(slice)[..SegStart(slice, k) + o]) == o
  {
    JoinIndex(slice, k, o);
    JoinPrefix(slice, k, o);
  }

  /** The element at offset o of segment k. */
  lemma {:induction false} JoinIndex(slice: seq<seq<nat>>, k: nat, o: nat)
    requires k < |slice| && o <= |slice[k]|
    ensures SegStart(slice, k) + o < |Joined(slice)|
    ensures Joined(slice)[SegStart(slice, k) + o] == if o < |slice[k]| then slice[k][o] + 2 else 1
    decreases k
  {
    var a := Shift(slice[0]) + [1];
    var rest := Joined(slice[1..]);
    assert Joined(slice) == a + rest;
    if k > 0 {
      JoinIndex(slice[1..], k - 1, o);
      var q := SegStart(slice[1..], k - 1) + o;
      assert SegStart(slice, k) + o == |a| + q;
      assert (a + rest)[|a| + q] == rest[q];
    }
  }

  /** The text before offset o of segment k holds k separators and, after the last
      one, o elements. */
  lemma {:induction false} JoinPrefix(slice: seq<seq<nat>>, k: nat, o: nat)
    requires k < |slice| && o <= |slice[k]|
    ensures SegStart(slice, k) + o <= |Joined(slice)|
    ensures SepCount(Joined(slice)[..SegStart(slice, k) + o]) == k
    ensures SinceSep(Joined(slice)[..SegStart(slice, k) + o]) == o
    decreases k
  {
    var a := Shift(slice[0]) + [1];
    var rest := Joined(slice[1..]);
    assert Joined(slice) == a + rest;
    var p := SegStart(slice, k) + o;
    if k == 0 {
      assert Joined(slice)[..p] == Shift(slice[0])[..o];
      InsideShift(slice[0], o);
    } else {
      JoinPrefix(slice[1..], k - 1, o);
      var q := SegStart(slice[1..], k - 1) + o;
      assert p == |a| + q;
      var pre := Joined(slice)[..p];
      assert pre == a + rest[..q];
      SeparatedCount(slice[0]);
      SepCountAppend(a, rest[..q]);
      SinceSepAfterSep(a, rest[..q]);
    }
  }

  /** The final 0 of the segment join comes after all |slice| separators, at offset 0:
      it gets the id |slice|, whose length `get_lengths` sets to 1. */
  lemma {:induction false} SentinelPosition(slice: seq<seq<nat>>)
    ensures SepCount(Joined(slice)) == |slice|
    ensures SinceSep(Joined(slice)) == 0
    decreases |slice|
  {
    if |slice| > 0 {
      var a := Shift(slice[0]) + [1];
      SentinelPosition(slice[1..]);
      SepCountAppend(a, Joined(slice[1..]));
      SepCountAppend(Shift(slice[0]), [1]);
      InsideShift(slice[0], |slice[0]|);
      assert Shift(slice[0])[..|slice[0]|] == Shift(slice[0]);
      SinceSepAfterSep(a, Joined(slice[1..]));
      if |slice| == 1 {
        assert Joined(slice) == a;
      }
    }
  }

  /** Each suffix-array rank is mapped to the segment and offset of its text
      position: with isa the inverse suffix array of the segment join, the rank
      of offset o of segment k gets id k and position o. */
  lemma RankToSegment(segments: seq<seq<nat>>, isa: seq<nat>, ids: seq<nat>, pos: seq<nat>, k: nat, o: nat)
    requires IsPermutation(isa) && |isa| == |JoinOf(segments)|
    requires |ids| == |isa| && forall i :: 0 <= i < |isa| ==> ids[isa[i]] == SepCount(JoinOf(segments)[..i])
    requires |pos| == |isa| && forall i :: 0 <= i < |isa| ==> pos[isa[i]] == SinceSep(JoinOf(segments)[..i])
    requires k < |segments| && o <= |segments[k]|
    ensures SegStart(segments, k) + o < |isa|
    ensures var r := isa[SegStart(segments, k) + o]; ids[r] == k && pos[r] == o
  {
    JoinPosition(segments, k, o);
    var p := SegStart(segments, k) + o;
    assert JoinOf(segments)[..p] == Joined(segments)[..p];
  }

  // ---------------------------------------------------------------------------
  // get_sequence_position / get_right_context_rank

  /** The start offset that `get_sequence_position` has reached before path-join
      position i: every segment occurrence (value ≥ 2) before i adds its length
      minus the overlap. */
  function StartBefore(path: seq<nat>, len: seq<nat>, overlap: nat, i: nat): nat
    requires i <= |path| && Occurrences(path, len, overlap)
    decreases i
  {
    if i == 0 then 0
    else if path[i - 1] >= 2 then StartBefore(path, len, overlap, i - 1) + len[path[i - 1] - 2] - overlap
    else StartBefore(path, len, overlap, i - 1)
  }

  /** Every occurrence names a segment of `len` that is at least as long as the overlap
      (otherwise the source indexes out of range or underflows). */
  predicate Occurrences(path: seq<nat>, len: seq<nat>, overlap: nat)
  {
    forall i :: 0 <= i < |path| && path[i] >= 2 ==> path[i] - 2 < |len| && overlap <= len[path[i] - 2]
  }

  /** The start offsets of the occurrences of segment s before position i, in path order. */
  function PosList(path: seq<nat>, len: seq<nat>, overlap: nat, s: nat, i: nat): seq<nat>
    requires i <= |path| && Occurrences(path, len, overlap)
    decreases i
  {
    if i == 0 then []
    else if path[i - 1] == s + 2 then PosList(path, len, overlap, s, i - 1) + [StartBefore(path, len, overlap, i - 1)]
    else PosList(path, len, overlap, s, i - 1)
  }

  /** `get_sequence_position`: one list per entry of `len`; each occurrence of a
      segment in the path join appends the running start, which then grows by the
      segment's length minus the overlap. Entries 0 and 1 (separators) are skipped. */
  method SequencePosition(path: seq<nat>, len: seq<nat>, overlap: nat) returns (result: seq<seq<nat>>)
    requires Occurrences(path, len, overlap)
    ensures |result| == |len|
    ensures forall s :: 0 <= s < |len| ==> result[s] == PosList(path, len, overlap, s, |path|)
  {
    result := seq(|len|, _ => []);
    var start := 0;
    for i := 0 to |path|
      invariant |result| == |len| && start == StartBefore(path, len, overlap, i)
      invariant forall s :: 0 <= s < |len| ==> result[s] == PosList(path, len, overlap, s, i)
    {
      var id := path[i];
      if id >= 2 {
        result := result[id - 2 := result[id - 2] + [start]];
        start := start + len[id - 2] - overlap;
      }
    }
  }

  lemma {:induction false} StartMonotone(path: seq<nat>, len: seq<nat>, overlap: nat, i: nat, j: nat)
    requires i <= j <= |path| && Occurrences(path, len, overlap)
    ensures StartBefore(path, len, overlap, i) <= StartBefore(path, len, overlap, j)
    decreases j
  {
    if i < j { StartMonotone(path, len, overlap, i, j - 1); }
  }

  /** Each segment's start offsets come out in ascending order. */
  lemma {:induction false} PosListAscending(path: seq<nat>, len: seq<nat>, overlap: nat, s: nat, i: nat)
    requires i <= |path| && Occurrences(path, len, overlap)
    ensures Ascending(PosList(path, len, overlap, s, i))
    ensures forall a :: 0 <= a < |PosList(path, len, overlap, s, i)| ==>
      PosList(path, len, overlap, s, i)[a] <= StartBefore(path, len, overlap, i)
    decreases i
  {
    if i > 0 {
      PosListAscending(path, len, overlap, s, i - 1);
      StartMonotone(path, len, overlap, i - 1, i);
      var l0 := PosList(path, len, overlap, s, i - 1);
      if path[i - 1] == s + 2 {
        var l := l0 + [StartBefore(path, len, overlap, i - 1)];
        assert forall a :: 0 <= a < |l0| ==> l[a] == l0[a];
      }
    }
  }

  /** The ranks, in path order, of the suffixes that follow the occurrences of segment s before position i. */
  function RcList(path: seq<nat>, isa: seq<nat>, s: nat, i: nat): seq<nat>
    requires i <= |path| && |isa| == |path| && ContextsExist(path)
    decreases i
  {
    if i == 0 then []
    else if path[i - 1] == s + 2 then RcList(path, isa, s, i - 1) + [isa[i]]
    else RcList(path, isa, s, i - 1)
  }

  /** No segment occurrence is the last element (a path join ends with the 0 sentinel). */
  predicate ContextsExist(path: seq<nat>)
  {
    forall i :: 0 <= i < |path| && path[i] >= 2 ==> i + 1 < |path|
  }

  /** `get_right_context_rank`: the suffix array of the path join (built with
      `SuffixArray::create`) is inverted, and each occurrence of segment s at i
      appends the rank of the suffix starting at i + 1 to list s. */
  method RightContextRank(path: seq<nat>, size: nat) returns (result: seq<seq<nat>>, ghost isa: seq<nat>)
    requires ContextsExist(path)
    requires forall i :: 0 <= i < |path| && path[i] >= 2 ==> path[i] - 2 < size
    ensures |result| == size && |isa| == |path| && IsPermutation(isa)
    ensures exists sa :: IsInverse(sa, isa) && SuffixArrays.SuffixesSorted(path, sa)
    ensures forall s :: 0 <= s < size ==> result[s] == RcList(path, isa, s, |path|)
  {
    var sa := SuffixArrays.Create(path);
    var inv := Invert(sa);
    isa := inv;
    result := seq(size, _ => []);
    for i := 0 to |path|
      invariant |result| == size
      invariant forall s :: 0 <= s < size ==> result[s] == RcList(path, inv, s, i)
    {
      var id := path[i];
      if id >= 2 {
        result := result[id - 2 := result[id - 2] + [inv[i + 1]]];
      }
    }
  }

  /** Each segment has as many right-context ranks as start offsets: one per occurrence. */
  lemma {:induction false} ListsAligned(path: seq<nat>, len: seq<nat>, overlap: nat, isa: seq<nat>, s: nat, i: nat)
    requires i <= |path| && |isa| == |path| && ContextsExist(path) && Occurrences(path, len, overlap)
    ensures |RcList(path, isa, s, i)| == |PosList(path, len, overlap, s, i)|
    decreases i
  {
    if i > 0 { ListsAligned(path, len, overlap, isa, s, i - 1); }
  }

  // ---------------------------------------------------------------------------
  // the sort loop of PFData::new

  /** r holds the entries of d moved by the permutation p. */
  predicate Realigned(p: seq<nat>, d: seq<nat>, r: seq<nat>)
  {
    IsPermutation(p) && |d| == |p| && |r| == |p| &&
    forall k :: 0 <= k < |p| ==> r[p[k]] == d[k]
  }

  predicate Ascending(s: seq<nat>)
  {
    forall a, b :: 0 <= a < b < |s| ==> s[a] <= s[b]
  }

  /** The loop of `PFData::new` over the segments: argsort each rank list and
      apply that one permutation to both the rank list and the start list, so
      the ranks become ascending and each start stays paired with its rank. A
      start list longer than its rank list is cut to the rank list's length, as
      `permutation_apply` does; lists after the last segment are untouched. */
  method SortContexts(rcRank: seq<seq<nat>>, seqPos: seq<seq<nat>>)
    returns (rc: seq<seq<nat>>, sp: seq<seq<nat>>, ghost perms: seq<seq<nat>>)
    requires |rcRank| <= |seqPos|
    requires forall i :: 0 <= i < |rcRank| ==> |rcRank[i]| <= |seqPos[i]|
    ensures |rc| == |rcRank| && |sp| == |seqPos| && |perms| == |rcRank|
    ensures forall i :: 0 <= i < |rcRank| ==>
      Ascending(rc[i]) && multiset(rc[i]) == multiset(rcRank[i]) &&
      Realigned(perms[i], rcRank[i], rc[i]) &&
      Realigned(perms[i], seqPos[i][..|rcRank[i]|], sp[i])
    ensures forall i :: |rcRank| <= i < |seqPos| ==> sp[i] == seqPos[i]
  {
    rc, sp, perms := rcRank, seqPos, [];
    for i := 0 to |rcRank|
      invariant |rc| == |rcRank| && |sp| == |seqPos| && |perms| == i
      invariant forall j :: i <= j < |rcRank| ==> rc[j] == rcRank[j]
      invariant forall j :: i <= j < |seqPos| ==> sp[j] == seqPos[j]
      invariant forall j :: 0 <= j < i ==>
        Ascending(rc[j]) && multiset(rc[j]) == multiset(rcRank[j]) &&
        Realigned(perms[j], rcRank[j], rc[j]) &&
        Realigned(perms[j], seqPos[j][..|rcRank[j]|], sp[j])
    {
      var iperm := ArgSort(rc[i]);
      var ranks := Apply(iperm, rc[i]);
      var starts := Apply(iperm, sp[i]);
      PlacedByRankSorted(rc[i], iperm, ranks);
      assert Realigned(iperm, seqPos[i][..|rcRank[i]|], starts);
      rc := rc[i := ranks];
      sp := sp[i := starts];
      perms := perms + [iperm];
    }
  }
}
