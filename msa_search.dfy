/** The search side of scripts/create_col.py: the naive first-occurrence query
    `rindex_query`, the boundary test `has_boundary`, the linear scan `linsearch`
    over the run-length encoded columns, and `get_cols`, which lists the columns
    between the two boundaries that scan finds. */
module MsaSearch {
  import opened Wrappers
  import opened SuffixArrays
  import Query
  import Runs
  import MsaColumns

  // ---------------------------------------------------------------------------
  // rindex_query

  /** P occurs in T at i. */
  predicate OccursAt(t: string, p: string, i: nat)
  {
    i + |p| <= |t| && t[i..i + |p|] == p
  }

  /** The first start in [i, bound) where P occurs, or -1. */
  function FirstFrom(t: string, p: string, i: nat, bound: int): int
    decreases bound - i
  {
    if i >= bound then -1
    else if OccursAt(t, p, i) then i
    else FirstFrom(t, p, i + 1, bound)
  }

  /** FirstFrom finds the least start in [i, bound) where P occurs, and -1 exactly
      when there is none. */
  lemma {:induction false} FirstFromIs(t: string, p: string, i: nat, bound: int)
    ensures var r := FirstFrom(t, p, i, bound);
      (r == -1 <==> forall k :: i <= k < bound ==> !OccursAt(t, p, k)) &&
      (r != -1 ==> i <= r < bound && OccursAt(t, p, r) && forall k :: i <= k < r ==> !OccursAt(t, p, k))
    decreases bound - i
  {
    if i < bound && !OccursAt(t, p, i) {
      FirstFromIs(t, p, i + 1, bound);
    }
  }

  /** The scan shared by the query as written and as corrected: try each start below
      `bound` and compare P character by character. */
  method ScanStarts(t: string, p: string, bound: int) returns (r: int)
    requires bound <= |t| - |p| + 1
    ensures r == FirstFrom(t, p, 0, bound)
  {
    var n, m := |t|, |p|;
    var i := 0;
    while i < bound
      invariant 0 <= i && (i <= bound || bound <= 0)
      invariant FirstFrom(t, p, 0, bound) == FirstFrom(t, p, i, bound)
      decreases bound - i
    {
      var j := 0;
      while j < m && t[i + j] == p[j]
        invariant 0 <= j <= m && t[i..i + j] == p[..j]
        decreases m - j
      {
        assert t[i..i + j + 1] == t[i..i + j] + [t[i + j]];
        j := j + 1;
      }
      if j == m {
        assert p[..j] == p;
        return i;
      }
      assert t[i + j] != p[j];
      assert !OccursAt(t, p, i);
      i := i + 1;
    }
    return -1;
  }

  /** `rindex_query(T, P)` as written: its loop runs over `range(n - m)`, so the
      last start n - m is never tried. */
  method RindexQuery(t: string, p: string) returns (r: int)
    ensures r == FirstFrom(t, p, 0, |t| - |p|)
    ensures r == -1 <==> forall k :: 0 <= k < |t| - |p| ==> !OccursAt(t, p, k)
    ensures r != -1 ==> 0 <= r < |t| - |p| && OccursAt(t, p, r) && forall k :: 0 <= k < r ==> !OccursAt(t, p, k)
  {
    r := ScanStarts(t, p, |t| - |p|);
    FirstFromIs(t, p, 0, |t| - |p|);
  }

  /** A pattern that only occurs at the end of T is not found: "A" in "A" gives -1. */
  lemma RindexQueryMissesLastStart()
    ensures OccursAt("A", "A", 0) && FirstFrom("A", "A", 0, |"A"| - |"A"|) == -1
  {
    assert "A"[0..1] == "A";
  }

  /** The query with the last start included: -1 exactly when P does not occur in T
      at all. */
  method FindFirst(t: string, p: string) returns (r: int)
    ensures r == FirstFrom(t, p, 0, |t| - |p| + 1)
    ensures r == -1 <==> forall k :: 0 <= k ==> !OccursAt(t, p, k)
    ensures r != -1 ==> 0 <= r && OccursAt(t, p, r) && forall k :: 0 <= k < r ==> !OccursAt(t, p, k)
  {
    r := ScanStarts(t, p, |t| - |p| + 1);
    FirstFromIs(t, p, 0, |t| - |p| + 1);
  }

  /** The corrected query finds the occurrence at the end that the original misses. */
  lemma FindFirstFindsLastStart()
    ensures FirstFrom("A", "A", 0, |"A"| - |"A"| + 1) == 0
  {
    assert "A"[0..1] == "A";
  }

  // ---------------------------------------------------------------------------
  // has_boundary and linsearch

  /** What the boundary search works on: the first occurrence `occ1` of the pattern
      and its length `len1`, the run-length encoded columns C and rows R, the text T
      and the MSA-to-T dictionary. */
  datatype Probe = Probe(occ1: nat, len1: nat, c: seq<int>, r: seq<int>, t: string, msa2t: map<(int, int), nat>)
  {
    predicate Valid() { |c| == |r| }
  }

  /** `lce(T, i, j)`: the length of the common prefix of the suffixes at i and j, and
      whether the suffix at i is not larger (the method `Query.PyLce` computes it). */
  function Lce(t: string, i: nat, j: nat): (nat, bool)
  {
    var b := Query.Bytes(t);
    var x, y := Query.Suffix(b, i), Query.Suffix(b, j);
    (Query.Lcp(x, y), LexLess(x, y) || x == y)
  }

  /** `has_boundary`: `Some(true)` for "done", `Some(false)` for "nope", `None` for
      the `KeyError` of an entry of the encoding missing from the dictionary. The
      rows at i (top) and i + offset (bottom) are compared with the occurrence. */
  function HasBoundary(q: Probe, upper: bool, i: nat, offset: int): Option<bool>
    requires q.Valid() && i < |q.c| && 0 <= i + offset < |q.c|
  {
    var top, bot := (q.r[i], q.c[i]), (q.r[i + offset], q.c[i + offset]);
    if top !in q.msa2t || bot !in q.msa2t then None
    else
      var (botLce, botSign) := Lce(q.t, q.msa2t[bot], q.occ1);
      var (topLce, topSign) := Lce(q.t, q.msa2t[top], q.occ1);
      if topLce == botLce && topSign != botSign then Some(true)
      else if upper then Some(topLce < q.len1 && botLce >= q.len1)
      else Some(topLce >= q.len1 && botLce < q.len1)
  }

  /** The outcome of `linsearch`: the boundary index, the fall-through past the last
      entry (the source prints a message and returns nothing), or a `KeyError`. */
  datatype Search = Found(index: nat) | Exhausted | KeyMissing

  /** The neighbour each test compares with: the entry before upwards, after downwards. */
  function Offset(upper: bool): int
  {
    if upper then -1 else 1
  }

  /** The entry the scan starts at: 1 upwards, 0 downwards. */
  function Start(upper: bool): nat
  {
    if upper then 1 else 0
  }

  /** The outcomes of the tests `linsearch` makes, in order: upwards entries 1 .. N - 1
      against the one before, downwards entries 0 .. N - 2 against the one after.
      Either way the j-th test looks at the pair of entries j and j + 1. */
  function Tests(q: Probe, upper: bool): (ts: seq<Option<bool>>)
    requires q.Valid()
    ensures |ts| == if |q.c| == 0 then 0 else |q.c| - 1
  {
    var n := if |q.c| == 0 then 0 else |q.c| - 1;
    seq(n, j requires 0 <= j < n => HasBoundary(q, upper, j + Start(upper), Offset(upper)))
  }

  /** The first test from j that is not "nope": "done" at test k answers k + 1 (i
      upwards, i + 1 downwards, the entry after the pair), a `KeyError` stops the scan. */
  function First(ts: seq<Option<bool>>, j: nat): Search
    decreases |ts| - j
  {
    if j >= |ts| then Exhausted
    else match ts[j]
      case None => KeyMissing
      case Some(done) => if done then Found(j + 1) else First(ts, j + 1)
  }

  /** `linsearch` as a function of the MSA-to-T dictionary and the encoding. */
  function LinSpec(q: Probe, upper: bool): Search
    requires q.Valid()
  {
    First(Tests(q, upper), 0)
  }

  /** `linsearch(occ1, len1, rle_C, T, msa2t, upper)`. */
  method LinSearch(q: Probe, upper: bool) returns (s: Search)
    requires q.Valid()
    ensures s == LinSpec(q, upper)
    ensures s.Found? ==> 0 < s.index < |q.c|
  {
    var start, end, offset := 1, |q.c|, -1;
    if !upper {
      start, end, offset := 0, |q.c| - 1, 1;
    }
    ghost var ts := Tests(q, upper);
    var i := start;
    while i < end
      invariant start == Start(upper) && offset == Offset(upper)
      invariant end == |q.c| - (if upper then 0 else 1)
      invariant start <= i && (i <= end || end < start)
      invariant LinSpec(q, upper) == First(ts, i - start)
      decreases end - i
    {
      var res := HasBoundary(q, upper, i, offset);
      assert res == ts[i - start];
      if res.None? {
        return KeyMissing;
      }
      if res.value {
        return Found(if upper then i else i + 1);
      }
      assert First(ts, i - start) == First(ts, i - start + 1);
      i := i + 1;
    }
    return Exhausted;
  }

  /** First finds the first test from j that is not "nope": Found(k + 1) means test k
      is "done" and every test from j before it is "nope"; KeyMissing means one is
      missing and Exhausted that all are "nope". */
  lemma {:induction false} FirstFinds(ts: seq<Option<bool>>, j: nat)
    ensures var s := First(ts, j);
      (s.Found? ==>
         j < s.index <= |ts| && ts[s.index - 1] == Some(true) &&
         forall k :: j <= k < s.index - 1 ==> ts[k] == Some(false)) &&
      (s.Exhausted? ==> forall k :: j <= k < |ts| ==> ts[k] == Some(false)) &&
      (s.KeyMissing? ==> exists k :: j <= k < |ts| && ts[k] == None)
    decreases |ts| - j
  {
    if j < |ts| && ts[j] == Some(false) {
      FirstFinds(ts, j + 1);
    }
  }

  /** The upward test at i and the downward test at i - 1 look at the same pair of
      entries and ask the same question of it. */
  lemma BoundarySymmetric(q: Probe, i: nat)
    requires q.Valid() && 1 <= i < |q.c|
    ensures HasBoundary(q, true, i, -1) == HasBoundary(q, false, i - 1, 1)
  {
    var k := i - 1;
    assert (q.r[k + 1], q.c[k + 1]) == (q.r[i], q.c[i]);
  }

  /** Hence both directions make the same tests in the same order... */
  lemma TestsAgree(q: Probe)
    requires q.Valid()
    ensures Tests(q, true) == Tests(q, false)
  {
    var up, down := Tests(q, true), Tests(q, false);
    assert Start(true) == 1 && Offset(true) == -1 && Start(false) == 0 && Offset(false) == 1;
    forall j | 0 <= j < |up| ensures up[j] == down[j] {
      assert up[j] == HasBoundary(q, true, j + 1, -1);
      assert down[j] == HasBoundary(q, false, j, 1);
      BoundarySymmetric(q, j + 1);
    }
  }

  /** ...and both searches of `get_cols` return the same index: the upward and the
      downward `linsearch` find the same first boundary. */
  lemma LinSearchAgree(q: Probe)
    requires q.Valid()
    ensures LinSpec(q, true) == LinSpec(q, false)
  {
    TestsAgree(q);
  }

  // ---------------------------------------------------------------------------
  // get_cols

  /** `get_cols(occ1, len1, rle_C, T, msa)`: builds the MSA-to-T dictionary (an empty
      MSA fails there), searches both boundaries (a missing boundary or key fails),
      and lists the distinct columns between them. As both searches agree, the list
      is the single column at the boundary. */
  method GetCols(occ1: nat, len1: nat, c: seq<int>, r: seq<int>, t: string, msa: seq<string>)
    returns (cols: Option<seq<int>>)
    requires |c| == |r|
    ensures MsaColumns.MsaToT(msa).None? ==> cols.None?
    ensures MsaColumns.MsaToT(msa).Some? ==>
      var s := LinSpec(Probe(occ1, len1, c, r, t, MsaColumns.MsaToT(msa).value), true);
      (cols.Some? <==> s.Found?) && (cols.Some? ==> s.index < |c| && cols.value == [c[s.index]])
  {
    var msa2t := MsaColumns.MapMsaToT(msa);
    if msa2t.None? {
      return None;
    }
    var q := Probe(occ1, len1, c, r, t, msa2t.value);
    var boundaryUpper := LinSearch(q, true);
    var boundaryLower := LinSearch(q, false);
    LinSearchAgree(q);
    if !boundaryUpper.Found? || !boundaryLower.Found? {
      return None;
    }
    var listing := Runs.DocListing(c, boundaryUpper.index, boundaryLower.index);
    return Some(listing);
  }
}
