/** Prefix-free parsing of src/pf.rs: `get_triggers` cuts the trigger file into
    words, `split_prefix_free` cuts a sequence at every trigger occurrence into
    overlapping segments and numbers new segments in a table shared by all
    sequences (`add_segment`), and `normalize` renumbers the segments in
    lexicographic order. Byte strings are strings, one char per byte; a panic of the
    source is the result `None` (or `false`). */
module PrefixFree {
  import opened Wrappers
  import opened Text

  function Min(a: nat, b: nat): nat { if a <= b then a else b }

  // ---------------------------------------------------------------------------
  // get_triggers

  /** The words of a trigger file: `size` bytes, then one separator byte that is
      skipped; `None` when the last word is cut short (its slice panics). */
  function Chunks(trigs: string, size: nat): (r: Option<seq<string>>)
    ensures r.Some? ==> forall t :: t in r.value ==> |t| == size
    decreases |trigs|
  {
    if |trigs| == 0 then Some([])
    else if size > |trigs| then None
    else
      var rest := Chunks(trigs[Min(size + 1, |trigs|)..], size);
      if rest.None? then None else Some([trigs[..size]] + rest.value)
  }

  /** `xs` in front of the words of `r`, failing with it. */
  function Then(xs: seq<string>, r: Option<seq<string>>): Option<seq<string>>
  {
    if r.None? then None else Some(xs + r.value)
  }

  lemma ThenThen(a: seq<string>, b: seq<string>, r: Option<seq<string>>)
    ensures Then(a, Then(b, r)) == Then(a + b, r)
  {
    if r.Some? {
      assert a + (b + r.value) == a + b + r.value;
    }
  }

  /** The words from i on: the one at i, then those after its separator. */
  lemma ChunksAt(trigs: string, size: nat, i: nat)
    requires i + size <= |trigs| && i < |trigs|
    ensures Chunks(trigs[i..], size) == Then([trigs[i..i + size]], Chunks(trigs[Min(i + size + 1, |trigs|)..], size))
  {
    assert trigs[i..][Min(size + 1, |trigs| - i)..] == trigs[Min(i + size + 1, |trigs|)..];
    assert trigs[i..][..size] == trigs[i..i + size];
  }

  /** `get_triggers`: the loop over i = 0, size+1, 2(size+1), ... below |trigs|. */
  method GetTriggers(trigs: string, size: nat) returns (r: Option<seq<string>>)
    ensures r == Chunks(trigs, size)
  {
    var result: seq<string> := [];
    var i: nat := 0;
    assert trigs[0..] == trigs;
    var all := Chunks(trigs, size);
    assert all.Some? ==> result + all.value == all.value;
    while i < |trigs|
      invariant i <= |trigs|
      invariant Chunks(trigs, size) == Then(result, Chunks(trigs[i..], size))
      decreases |trigs| - i
    {
      if i + size > |trigs| {
        return None;
      }
      var next := Min(i + size + 1, |trigs|);
      ChunksAt(trigs, size, i);
      ThenThen(result, [trigs[i..i + size]], Chunks(trigs[next..], size));
      result := result + [trigs[i..i + size]];
      i := next;
    }
    assert trigs[i..] == [];
    assert result + [] == result;
    return Some(result);
  }

  /** Words of `size` bytes, each but the last followed by one separator, are read
      back as the same words. */
  lemma {:induction false} ChunksOfJoined(ts: seq<string>, c: char, size: nat)
    requires size > 0 && forall t :: t in ts ==> |t| == size
    ensures Chunks(JoinWith(ts, [c]), size) == Some(ts)
    decreases |ts|
  {
    if |ts| == 1 {
      var t := ts[0];
      assert JoinWith(ts, [c]) == t;
      assert t[Min(size + 1, |t|)..] == [];
      assert Chunks([], size) == Some([]);
      assert t[..size] == t;
      assert [t] + [] == ts;
    } else if |ts| > 1 {
      var t, rest := ts[0], JoinWith(ts[1..], [c]);
      var joined := t + [c] + rest;
      assert JoinWith(ts, [c]) == joined;
      assert joined[..size] == t;
      assert joined[size + 1..] == rest;
      assert forall u :: u in ts[1..] ==> u in ts;
      ChunksOfJoined(ts[1..], c, size);
      assert [t] + ts[1..] == ts;
    }
  }

  // ---------------------------------------------------------------------------
  // split_prefix_free: the cut positions

  /** The k bytes of `p` from `t` on. */
  function Window(p: string, t: nat, k: nat): string
    requires t + k <= |p|
  {
    p[t..t + k]
  }

  /** The state of the loop of `split_prefix_free` once it has handled every j with
      1 <= j < J: the start `i` of the open segment and the segments cut so far. A
      segment is cut at j when the k bytes at j are a trigger; it runs from i up to
      and including that trigger. */
  function Scan(s: string, triggers: seq<string>, k: nat, J: nat): (r: (nat, seq<string>))
    requires 1 <= J && J - 1 + k <= |s|
    ensures r.0 < J
    decreases J
  {
    if J == 1 then (0, [])
    else
      var r := Scan(s, triggers, k, J - 1);
      var j := J - 1;
      if Window(s, j, k) in triggers then (j, r.1 + [s[r.0..j + k]]) else r
  }

  /** The end of the loop `for j in 1..n-k`. */
  function LoopEnd(n: nat, k: nat): nat
  {
    if n - k <= 1 then 1 else n - k
  }

  /** The segments `split_prefix_free` cuts `s` into: the cut segments, then the rest
      of `s` from the last cut on. `None` when there is no trigger (the `expect`
      panics) or the triggers are longer than `s` (n-k underflows). The trigger
      length k is that of the first trigger. */
  function SplitPieces(s: string, triggers: seq<string>): (r: Option<seq<string>>)
    ensures r.Some? <==> |triggers| > 0 && |triggers[0]| <= |s|
  {
    if |triggers| == 0 || |triggers[0]| > |s| then None
    else
      var k := |triggers[0]|;
      var (i, ps) := Scan(s, triggers, k, LoopEnd(|s|, k));
      Some(ps + [s[i..]])
  }

  /** Dropping the first k bytes of a segment. */
  function Drop(p: string, k: nat): string
  {
    if k <= |p| then p[k..] else ""
  }

  /** The first segment, then every later one without its first k bytes: the text
      the segments spell when their overlaps are taken once. */
  function Spell(ps: seq<string>, k: nat): string
  {
    if |ps| == 0 then ""
    else if |ps| == 1 then ps[0]
    else Spell(ps[..|ps| - 1], k) + Drop(ps[|ps| - 1], k)
  }

  /** `p` is longer than k and ends with a trigger. */
  predicate EndsWithTrigger(p: string, triggers: seq<string>, k: nat)
  {
    |p| > k && Window(p, |p| - k, k) in triggers
  }

  /** Every segment but the last is longer than k and ends with a trigger. */
  predicate EndInTriggers(ps: seq<string>, triggers: seq<string>, k: nat)
  {
    forall q :: 0 <= q < |ps| - 1 ==> EndsWithTrigger(ps[q], triggers, k)
  }

  /** A segment starts with the k bytes the one before it ends with. */
  predicate Overlapping(ps: seq<string>, k: nat)
  {
    forall q :: 0 <= q < |ps| - 1 ==> OverlapAt(ps, q, k)
  }

  predicate OverlapAt(ps: seq<string>, q: nat, k: nat)
    requires q < |ps| - 1
  {
    |ps[q]| >= k && |ps[q + 1]| >= k && Window(ps[q + 1], 0, k) == Window(ps[q], |ps[q]| - k, k)
  }

  /** `p` holds no trigger other than at its start or at its end. */
  predicate NoInner(p: string, triggers: seq<string>, k: nat)
  {
    forall t :: 0 < t && t + k < |p| ==> Window(p, t, k) !in triggers
  }

  /** No segment holds a trigger other than at its start or at its end. */
  predicate TriggerFree(ps: seq<string>, triggers: seq<string>, k: nat)
  {
    forall q :: 0 <= q < |ps| ==> NoInner(ps[q], triggers, k)
  }

  /** The segments cut so far spell `s` up to the trigger at the open start `i`. */
  predicate SpellsUpTo(s: string, k: nat, i: nat, ps: seq<string>)
    requires i + k <= |s|
  {
    if ps == [] then i == 0
    else
      Spell(ps, k) == s[..i + k] && |ps[|ps| - 1]| >= k
      && Window(ps[|ps| - 1], |ps[|ps| - 1]| - k, k) == Window(s, i, k)
  }

  /** No trigger starts strictly between `i` and `J`. */
  predicate Quiet(s: string, triggers: seq<string>, k: nat, i: nat, J: nat)
    requires J - 1 + k <= |s|
  {
    forall j :: i < j < J ==> Window(s, j, k) !in triggers
  }

  /** What the loop of `split_prefix_free` keeps up to J. */
  predicate ScanState(s: string, triggers: seq<string>, k: nat, J: nat, i: nat, ps: seq<string>)
    requires i < J && J - 1 + k <= |s|
  {
    SpellsUpTo(s, k, i, ps)
    && (forall q :: 0 <= q < |ps| ==> EndsWithTrigger(ps[q], triggers, k))
    && Overlapping(ps, k)
    && TriggerFree(ps, triggers, k)
    && Quiet(s, triggers, k, i, J)
  }

  lemma SpellSnoc(ps: seq<string>, p: string, k: nat)
    requires ps != []
    ensures Spell(ps + [p], k) == Spell(ps, k) + Drop(p, k)
  {
    assert (ps + [p])[..|ps|] == ps;
  }

  lemma OverlapSnoc(ps: seq<string>, p: string, k: nat)
    requires Overlapping(ps, k) && |p| >= k
    requires ps != [] ==> |ps[|ps| - 1]| >= k && Window(p, 0, k) == Window(ps[|ps| - 1], |ps[|ps| - 1]| - k, k)
    ensures Overlapping(ps + [p], k)
  {
    var ps' := ps + [p];
    forall q | 0 <= q < |ps'| - 1 ensures OverlapAt(ps', q, k) {
      if q < |ps| - 1 {
        assert ps'[q] == ps[q] && ps'[q + 1] == ps[q + 1];
        assert OverlapAt(ps, q, k);
      }
    }
  }

  lemma FreeSnoc(ps: seq<string>, p: string, triggers: seq<string>, k: nat)
    requires TriggerFree(ps, triggers, k) && NoInner(p, triggers, k)
    ensures TriggerFree(ps + [p], triggers, k)
  {
    var ps' := ps + [p];
    forall q | 0 <= q < |ps'| ensures NoInner(ps'[q], triggers, k) {
      if q < |ps| {
        assert ps'[q] == ps[q];
      }
    }
  }

  /** A stretch of `s` in which no trigger starts after its first byte. */
  lemma QuietSlice(s: string, triggers: seq<string>, k: nat, i: nat, e: nat)
    requires i + k <= e <= |s| && Quiet(s, triggers, k, i, e - k)
    ensures NoInner(s[i..e], triggers, k)
  {
    var p := s[i..e];
    forall t | 0 < t && t + k < |p| ensures Window(p, t, k) !in triggers {
      var w, v := p[t..t + k], s[i + t..i + t + k];
      forall x | 0 <= x < k ensures w[x] == v[x] {
        assert w[x] == p[t + x] == s[i + t + x];
      }
      assert w == v;
      assert i < i + t < e - k;
      assert Window(s, i + t, k) !in triggers;
    }
  }

  /** Closing the open segment at the trigger at j keeps the spelling and the
      overlaps. */
  lemma CutSpells(s: string, k: nat, i: nat, j: nat, ps: seq<string>)
    requires i < j && j + k <= |s| && SpellsUpTo(s, k, i, ps)
    ensures SpellsUpTo(s, k, j, ps + [s[i..j + k]])
  {
    var p := s[i..j + k];
    var ps' := ps + [p];
    assert Window(p, |p| - k, k) == Window(s, j, k);
    if ps == [] {
      assert Spell(ps', k) == p == s[..j + k];
    } else {
      SpellSnoc(ps, p, k);
      assert s[..i + k] + s[i + k..j + k] == s[..j + k];
    }
  }

  lemma CutOverlaps(s: string, k: nat, i: nat, j: nat, ps: seq<string>)
    requires i < j && j + k <= |s| && SpellsUpTo(s, k, i, ps) && Overlapping(ps, k)
    ensures Overlapping(ps + [s[i..j + k]], k)
  {
    var p := s[i..j + k];
    assert Window(p, 0, k) == Window(s, i, k);
    OverlapSnoc(ps, p, k);
  }

  lemma EndsSnoc(ps: seq<string>, p: string, triggers: seq<string>, k: nat)
    requires forall q :: 0 <= q < |ps| ==> EndsWithTrigger(ps[q], triggers, k)
    ensures forall q :: 0 <= q < |ps| ==> EndsWithTrigger((ps + [p])[q], triggers, k)
    ensures EndInTriggers(ps + [p], triggers, k)
  {
    assert forall q :: 0 <= q < |ps| ==> (ps + [p])[q] == ps[q];
  }

  /** One step of the loop where the k bytes at j are a trigger. */
  lemma ScanCut(s: string, triggers: seq<string>, k: nat, j: nat, i: nat, ps: seq<string>)
    requires i < j && j + k <= |s| && ScanState(s, triggers, k, j, i, ps)
    requires Window(s, j, k) in triggers
    ensures ScanState(s, triggers, k, j + 1, j, ps + [s[i..j + k]])
  {
    var p := s[i..j + k];
    CutSpells(s, k, i, j, ps);
    CutOverlaps(s, k, i, j, ps);
    assert Window(p, |p| - k, k) == Window(s, j, k);
    EndsSnoc(ps, p, triggers, k);
    assert (ps + [p])[|ps|] == p;
    QuietSlice(s, triggers, k, i, j + k);
    FreeSnoc(ps, p, triggers, k);
  }

  /** One step of the loop where the k bytes at j are no trigger. */
  lemma ScanKeep(s: string, triggers: seq<string>, k: nat, j: nat, i: nat, ps: seq<string>)
    requires i < j && j + k <= |s| && ScanState(s, triggers, k, j, i, ps)
    requires Window(s, j, k) !in triggers
    ensures ScanState(s, triggers, k, j + 1, i, ps)
  {
  }

  lemma {:induction false} ScanFacts(s: string, triggers: seq<string>, k: nat, J: nat)
    requires 1 <= J && J - 1 + k <= |s|
    ensures ScanState(s, triggers, k, J, Scan(s, triggers, k, J).0, Scan(s, triggers, k, J).1)
    decreases J
  {
    if J > 1 {
      ScanFacts(s, triggers, k, J - 1);
      var r := Scan(s, triggers, k, J - 1);
      var j := J - 1;
      if Window(s, j, k) in triggers {
        ScanCut(s, triggers, k, j, r.0, r.1);
        assert Scan(s, triggers, k, J) == (j, r.1 + [s[r.0..j + k]]);
      } else {
        ScanKeep(s, triggers, k, j, r.0, r.1);
        assert Scan(s, triggers, k, J) == r;
      }
    } else {
      assert Scan(s, triggers, k, J) == (0, []);
      assert ScanState(s, triggers, k, 1, 0, []);
    }
  }

  /** The last segment runs from the open start to the end of `s`. */
  lemma CloseScan(s: string, triggers: seq<string>, k: nat, J: nat, i: nat, ps: seq<string>)
    requires i < J && J - 1 + k <= |s| && i + k <= |s| && ScanState(s, triggers, k, J, i, ps)
    requires Quiet(s, triggers, k, i, |s| - k)
    ensures var ps' := ps + [s[i..]];
      EndInTriggers(ps', triggers, k) && Overlapping(ps', k)
      && TriggerFree(ps', triggers, k) && Spell(ps', k) == s
  {
    var last := s[i..];
    if ps != [] {
      SpellSnoc(ps, last, k);
      assert s[..i + k] + s[i + k..] == s;
      assert Window(last, 0, k) == Window(s, i, k);
    }
    OverlapSnoc(ps, last, k);
    QuietSlice(s, triggers, k, i, |s|);
    assert s[i..|s|] == last;
    FreeSnoc(ps, last, triggers, k);
    EndsSnoc(ps, last, triggers, k);
  }

  /** What `split_prefix_free` promises about its segments: there is at least one;
      every one but the last ends with a trigger; a segment starts with the k bytes
      the one before it ends with; no segment holds a trigger anywhere but at its
      start or its end; and taking the overlaps once spells `s` again. */
  lemma SplitFacts(s: string, triggers: seq<string>)
    requires SplitPieces(s, triggers).Some?
    ensures var ps, k := SplitPieces(s, triggers).value, |triggers[0]|;
      |ps| >= 1 && EndInTriggers(ps, triggers, k) && Overlapping(ps, k)
      && TriggerFree(ps, triggers, k) && Spell(ps, k) == s
  {
    var k := |triggers[0]|;
    var J := LoopEnd(|s|, k);
    ScanFacts(s, triggers, k, J);
    var r := Scan(s, triggers, k, J);
    assert Quiet(s, triggers, k, r.0, |s| - k);
    CloseScan(s, triggers, k, J, r.0, r.1);
  }

  // ---------------------------------------------------------------------------
  // add_segment: the segment table

  /** The segment table: the ids are 0, 1, 2, ... with no id used twice. */
  predicate DenseIds(m: map<string, nat>)
  {
    (forall x :: x in m ==> m[x] < |m|)
    && (forall x, y :: x in m && y in m && x != y ==> m[x] != m[y])
  }

  /** `add_segment` on the table: a known segment gives its id, a new one is entered
      with the number of segments so far. */
  function Added(m: map<string, nat>, piece: string): (r: (map<string, nat>, nat))
  {
    if piece in m then (m, m[piece]) else (m[piece := |m|], |m|)
  }

  /** `m'` holds every segment of `m` with the same id. */
  predicate Extends(m: map<string, nat>, m': map<string, nat>)
  {
    forall x :: x in m ==> x in m' && m'[x] == m[x]
  }

  /** Each of `ids` is the id of the segment at the same place in `pieces`. */
  predicate IdsOf(m: map<string, nat>, pieces: seq<string>, ids: seq<nat>)
  {
    |ids| == |pieces| && forall q :: 0 <= q < |pieces| ==> pieces[q] in m && ids[q] == m[pieces[q]]
  }

  /** Every segment of `m'` was in `m` or is one of `pieces`. */
  predicate OnlyFrom(m': map<string, nat>, m: map<string, nat>, pieces: seq<string>)
  {
    forall x :: x in m' ==> x in m || x in pieces
  }

  /** The table stays dense; the id returned is the segment's; old entries keep
      their ids; a new segment's id is the old size. */
  lemma AddedFacts(m: map<string, nat>, piece: string)
    requires DenseIds(m)
    ensures var a := Added(m, piece);
      DenseIds(a.0) && piece in a.0 && a.0[piece] == a.1 && a.1 < |a.0|
      && Extends(m, a.0) && OnlyFrom(a.0, m, [piece]) && |a.0| >= |m|
      && (piece !in m ==> a.1 == |m| && |a.0| == |m| + 1)
      && (piece in m ==> a.0 == m)
  {
    if piece !in m {
      var m' := m[piece := |m|];
      assert m'.Keys == m.Keys + {piece};
      assert |m'| == |m| + 1;
    }
  }

  /** The table and the ids after `add_segment` on each of `pieces` in turn. */
  function AddAll(m: map<string, nat>, pieces: seq<string>): (r: (map<string, nat>, seq<nat>))
    ensures |r.1| == |pieces|
  {
    if |pieces| == 0 then (m, [])
    else
      var r := AddAll(m, pieces[..|pieces| - 1]);
      var a := Added(r.0, pieces[|pieces| - 1]);
      (a.0, r.1 + [a.1])
  }

  lemma AddAllSnoc(m: map<string, nat>, pieces: seq<string>, piece: string)
    ensures var r := AddAll(m, pieces); var a := Added(r.0, piece);
      AddAll(m, pieces + [piece]) == (a.0, r.1 + [a.1])
  {
    assert (pieces + [piece])[..|pieces|] == pieces;
  }

  lemma IdsOfSnoc(m: map<string, nat>, m': map<string, nat>, pieces: seq<string>, ids: seq<nat>, piece: string, id: nat)
    requires IdsOf(m, pieces, ids) && Extends(m, m') && piece in m' && m'[piece] == id
    ensures IdsOf(m', pieces + [piece], ids + [id])
  {
    var ps, ns := pieces + [piece], ids + [id];
    forall q | 0 <= q < |ps| ensures ps[q] in m' && ns[q] == m'[ps[q]] {
      if q < |pieces| {
        assert ps[q] == pieces[q] && ns[q] == ids[q];
      }
    }
  }

  /** After a sequence is cut, each step of its path is the id of its segment, the
      table stays dense, and it holds the old segments with their old ids and the
      new pieces and nothing else. */
  lemma {:induction false} AddAllFacts(m: map<string, nat>, pieces: seq<string>)
    requires DenseIds(m)
    ensures var r := AddAll(m, pieces);
      DenseIds(r.0) && |r.0| >= |m| && IdsOf(r.0, pieces, r.1) && Extends(m, r.0) && OnlyFrom(r.0, m, pieces)
    decreases |pieces|
  {
    if |pieces| > 0 {
      var init := pieces[..|pieces| - 1];
      var piece := pieces[|pieces| - 1];
      AddAllFacts(m, init);
      var r := AddAll(m, init);
      AddedFacts(r.0, piece);
      var a := Added(r.0, piece);
      assert init + [piece] == pieces;
      IdsOfSnoc(r.0, a.0, init, r.1, piece, a.1);
      assert forall x :: x in init ==> x in pieces;
    }
  }

  /** Every step of every path is an id below `n`. */
  predicate IdsBelow(paths: seq<seq<nat>>, n: nat)
  {
    forall p, q :: 0 <= p < |paths| && 0 <= q < |paths[p]| ==> paths[p][q] < n
  }

  lemma IdsBelowSnoc(paths: seq<seq<nat>>, path: seq<nat>, n: nat, n': nat)
    requires IdsBelow(paths, n) && n <= n' && forall q :: 0 <= q < |path| ==> path[q] < n'
    ensures IdsBelow(paths + [path], n')
  {
    var ps := paths + [path];
    forall p, q | 0 <= p < |ps| && 0 <= q < |ps[p]| ensures ps[p][q] < n' {
      if p < |paths| {
        assert ps[p] == paths[p];
      }
    }
  }

  /** The ids of segments of a dense table are below its size. */
  lemma IdsOfBelow(m: map<string, nat>, pieces: seq<string>, ids: seq<nat>)
    requires DenseIds(m) && IdsOf(m, pieces, ids)
    ensures forall q :: 0 <= q < |ids| ==> ids[q] < |m|
  {
  }

  /** The graph `split_prefix_free` builds over all sequences: the segment table and
      one path of segment ids per sequence. */
  class PrefixFreeGraph {
    var segments: map<string, nat>
    var paths: seq<seq<nat>>

    /** Dense ids, and every path step names a segment. */
    ghost predicate Valid()
      reads this
    {
      DenseIds(segments) && IdsBelow(paths, |segments|)
    }

    constructor ()
      ensures Valid() && segments == map[] && paths == []
    {
      segments := map[];
      paths := [];
    }

    /** `add_segment`: the id of `piece` is pushed on `path`; a new segment is first
        entered with the number of segments so far. */
    method AddSegment(piece: string, path: seq<nat>) returns (path': seq<nat>)
      modifies this
      ensures segments == Added(old(segments), piece).0
      ensures path' == path + [Added(old(segments), piece).1]
      ensures paths == old(paths)
    {
      if piece in segments {
        path' := path + [segments[piece]];
      } else {
        path' := path + [|segments|];
        segments := segments[piece := |segments|];
      }
    }

    /** `split_prefix_free`: `s` is cut into segments, each is looked up or entered in
        the table, and the path of their ids is added. Returns false where the source
        panics, before anything is changed. */
    method SplitPrefixFree(s: string, triggers: seq<string>) returns (ok: bool)
      requires Valid()
      modifies this
      ensures Valid()
      ensures ok == SplitPieces(s, triggers).Some?
      ensures ok ==>
        var (m, path) := AddAll(old(segments), SplitPieces(s, triggers).value);
        segments == m && paths == old(paths) + [path]
      ensures !ok ==> segments == old(segments) && paths == old(paths)
    {
      if |triggers| == 0 || |triggers[0]| > |s| {
        return false;
      }
      var k := |triggers[0]|;
      var m0 := segments;
      var path: seq<nat> := [];
      var i: nat := 0;
      ghost var pieces: seq<string> := [];
      for j := 1 to LoopEnd(|s|, k)
        invariant (i, pieces) == Scan(s, triggers, k, j)
        invariant (segments, path) == AddAll(m0, pieces)
        invariant paths == old(paths)
      {
        if Window(s, j, k) in triggers {
          path := AddSegment(s[i..j + k], path);
          AddAllSnoc(m0, pieces, s[i..j + k]);
          pieces := pieces + [s[i..j + k]];
          i := j;
        }
      }
      path := AddSegment(s[i..], path);
      AddAllSnoc(m0, pieces, s[i..]);
      pieces := pieces + [s[i..]];
      assert pieces == SplitPieces(s, triggers).value;
      AddAllFacts(m0, pieces);
      IdsOfBelow(segments, pieces, path);
      IdsBelowSnoc(paths, path, |m0|, |segments|);
      paths := paths + [path];
      ok := true;
    }
  }

  // ---------------------------------------------------------------------------
  // normalize

  /** The order of Rust byte strings: lexicographic, a proper prefix first. */
  predicate Below(a: string, b: string)
    decreases |a|
  {
    if |a| == 0 then |b| > 0
    else if |b| == 0 then false
    else if a[0] != b[0] then a[0] < b[0]
    else Below(a[1..], b[1..])
  }

  lemma {:induction false} BelowIrreflexive(a: string)
    ensures !Below(a, a)
    decreases |a|
  {
    if |a| > 0 {
      BelowIrreflexive(a[1..]);
    }
  }

  lemma {:induction false} BelowTransitive(a: string, b: string, c: string)
    requires Below(a, b) && Below(b, c)
    ensures Below(a, c)
    decreases |a|
  {
    if |a| > 0 && a[0] == b[0] && b[0] == c[0] {
      BelowTransitive(a[1..], b[1..], c[1..]);
    }
  }

  lemma {:induction false} BelowTotal(a: string, b: string)
    requires a != b
    ensures Below(a, b) || Below(b, a)
    decreases |a|
  {
    if |a| > 0 && |b| > 0 && a[0] == b[0] {
      assert a == [a[0]] + a[1..] && b == [b[0]] + b[1..];
      BelowTotal(a[1..], b[1..]);
    }
  }

  predicate StrictlySorted(xs: seq<string>)
  {
    forall a, b :: 0 <= a < b < |xs| ==> Below(xs[a], xs[b])
  }

  /** `x` put into its place in a sorted list. */
  function InsertSorted(x: string, xs: seq<string>): (r: seq<string>)
    ensures |r| == |xs| + 1
    decreases |xs|
  {
    if |xs| == 0 || Below(x, xs[0]) then [x] + xs
    else [xs[0]] + InsertSorted(x, xs[1..])
  }

  /** Inserting a new string keeps the list sorted and adds just that string. */
  lemma {:induction false} InsertSortedFacts(x: string, xs: seq<string>)
    requires StrictlySorted(xs) && x !in xs
    ensures StrictlySorted(InsertSorted(x, xs))
    ensures forall y :: y in InsertSorted(x, xs) <==> y == x || y in xs
    decreases |xs|
  {
    var r := InsertSorted(x, xs);
    if |xs| == 0 {
    } else if Below(x, xs[0]) {
      forall a, b | 0 <= a < b < |r| ensures Below(r[a], r[b]) {
        if a == 0 {
          if b > 1 {
            BelowTransitive(x, xs[0], xs[b - 1]);
          }
        } else {
          assert r[a] == xs[a - 1] && r[b] == xs[b - 1];
        }
      }
    } else {
      var rest := InsertSorted(x, xs[1..]);
      assert StrictlySorted(xs[1..]) by {
        forall a, b | 0 <= a < b < |xs[1..]| ensures Below(xs[1..][a], xs[1..][b]) {
          assert xs[1..][a] == xs[a + 1] && xs[1..][b] == xs[b + 1];
        }
      }
      InsertSortedFacts(x, xs[1..]);
      BelowTotal(x, xs[0]);
      assert r == [xs[0]] + rest;
      forall a, b | 0 <= a < b < |r| ensures Below(r[a], r[b]) {
        if a == 0 {
          var y := rest[b - 1];
          assert y in rest;
          if y != x {
            var c :| 0 <= c < |xs[1..]| && xs[1..][c] == y;
            assert xs[c + 1] == y;
          }
        } else {
          assert r[a] == rest[a - 1] && r[b] == rest[b - 1];
        }
      }
      assert forall y :: y in xs <==> y == xs[0] || y in xs[1..];
    }
  }

  /** The segment texts in order: the `HashMap` entries are taken in any order and
      each is put into its place, which gives the one sorted listing of the keys that
      `sort_unstable` produces. */
  method SortedNames(segments: map<string, nat>) returns (names: seq<string>)
    ensures StrictlySorted(names) && |names| == |segments|
    ensures forall x :: x in names <==> x in segments
  {
    names := [];
    var rest := segments.Keys;
    while rest != {}
      invariant StrictlySorted(names) && rest <= segments.Keys
      invariant forall x :: x in names <==> x in segments && x !in rest
      invariant |names| + |rest| == |segments.Keys|
      decreases |rest|
    {
      var x :| x in rest;
      InsertSortedFacts(x, names);
      names := InsertSorted(x, names);
      rest := rest - {x};
    }
  }

  /** `mapping[id] = i` for the i-th name: the new id of each old id. */
  method NewIds(segments: map<string, nat>, names: seq<string>) returns (mapping: seq<nat>)
    requires DenseIds(segments) && |names| == |segments| && StrictlySorted(names)
    requires forall x :: x in names <==> x in segments
    ensures |mapping| == |segments|
    ensures forall i :: 0 <= i < |names| ==> mapping[segments[names[i]]] == i
  {
    var a := new nat[|names|](_ => 0);
    for i := 0 to |names|
      invariant forall b :: 0 <= b < i ==> a[segments[names[b]]] == b
    {
      forall b | 0 <= b < i ensures segments[names[b]] != segments[names[i]] {
        assert Below(names[b], names[i]);
        BelowIrreflexive(names[i]);
      }
      a[segments[names[i]]] := i;
    }
    mapping := a[..];
  }

  /** Every id of every path replaced by its new id, in place. */
  method Rename(paths: seq<seq<nat>>, mapping: seq<nat>) returns (paths': seq<seq<nat>>)
    requires forall p, q :: 0 <= p < |paths| && 0 <= q < |paths[p]| ==> paths[p][q] < |mapping|
    ensures |paths'| == |paths|
    ensures forall p :: 0 <= p < |paths| ==> |paths'[p]| == |paths[p]|
    ensures forall p, q :: 0 <= p < |paths| && 0 <= q < |paths[p]| ==> paths'[p][q] == mapping[paths[p][q]]
  {
    paths' := paths;
    for p := 0 to |paths|
      invariant |paths'| == |paths|
      invariant forall a :: 0 <= a < |paths| ==> |paths'[a]| == |paths[a]|
      invariant forall a, q :: 0 <= a < p && 0 <= q < |paths[a]| ==> paths'[a][q] == mapping[paths[a][q]]
      invariant forall a :: p <= a < |paths| ==> paths'[a] == paths[a]
    {
      var path := paths'[p];
      for q := 0 to |path|
        invariant |path| == |paths[p]|
        invariant forall c :: 0 <= c < q ==> path[c] == mapping[paths[p][c]]
        invariant forall c :: q <= c < |path| ==> path[c] == paths[p][c]
      {
        path := path[q := mapping[path[q]]];
      }
      paths' := paths'[p := path];
    }
  }

  /** `normalize`: the segments listed in lexicographic order, and every path
      renamed to the new ids, so that each step still names the same segment text.
      (The ids written back into the sorted entries are never read again.) */
  method Normalize(segments: map<string, nat>, paths: seq<seq<nat>>) returns (names: seq<string>, paths': seq<seq<nat>>)
    requires DenseIds(segments)
    requires forall p, q :: 0 <= p < |paths| && 0 <= q < |paths[p]| ==> paths[p][q] < |segments|
    ensures StrictlySorted(names) && |names| == |segments|
    ensures forall x :: x in names <==> x in segments
    ensures |paths'| == |paths| && forall p :: 0 <= p < |paths| ==> |paths'[p]| == |paths[p]|
    ensures forall p, q, x :: 0 <= p < |paths| && 0 <= q < |paths[p]| && x in segments && segments[x] == paths[p][q] ==>
      paths'[p][q] < |names| && names[paths'[p][q]] == x
  {
    names := SortedNames(segments);
    var mapping := NewIds(segments, names);
    paths' := Rename(paths, mapping);
    forall p, q, x | 0 <= p < |paths| && 0 <= q < |paths[p]| && x in segments && segments[x] == paths[p][q]
      ensures paths'[p][q] < |names| && names[paths'[p][q]] == x
    {
      var i :| 0 <= i < |names| && names[i] == x;
      assert mapping[segments[names[i]]] == i;
    }
  }
}
