/** Maximal exact matches (MEMs) and their pointers: `MEM::from_str` and `get_mems`
    of src/bin/main.rs, and `parse_MEM` and the `MEMReader` iterator of
    src/bin/main3/mem.rs. A MEM file has a header line ">id" then a line of tokens
    "(a,b)" per read; the pointer file has the same header and a line of decimals. The
    files are given as their lines, without the line breaks. */
module Mems {
  import opened Wrappers
  import opened Text

  /** The factor `get_mems` divides a pointer by to count the separators before it. */
  const SEPARATOR_PERIOD: nat := 29850

  /** Every token parsed with `parse::<usize>()`, all or nothing (the source collects
      with `expect`, so one bad token panics). */
  function ParseNumbers(ts: seq<string>): (r: Option<seq<nat>>)
    ensures r.Some? ==> |r.value| == |ts|
  {
    if |ts| == 0 then Some([])
    else
      var x := ParseUsize(ts[0]);
      var rest := ParseNumbers(ts[1..]);
      if x.None? || rest.None? then None else Some([x.value] + rest.value)
  }

  /** `parse_MEM` (and `MEM::from_str`, which does the same): drop the first and the last
      character, split at ',', parse every piece, and take the first two. A token of
      fewer than two characters makes the slice panic, as does a piece that is not a
      number or a single piece. */
  function ParseMem(s: string): (r: Option<(nat, nat)>)
    ensures r.Some? ==> |s| >= 2
  {
    if |s| < 2 then None
    else
      var v := ParseNumbers(SplitOn(s[1..|s| - 1], ','));
      if v.None? || |v.value| < 2 then None else Some((v.value[0], v.value[1]))
  }

  /** A MEM as the matching-statistics tool writes it. */
  function MemText(a: nat, b: nat): string
  {
    "(" + (NatToDec(a) + "," + NatToDec(b)) + ")"
  }

  /** Dropping the brackets of a written MEM leaves the two decimals and the comma. */
  lemma MemTextInner(a: nat, b: nat)
    ensures var s := MemText(a, b); |s| >= 2 && s[1..|s| - 1] == NatToDec(a) + "," + NatToDec(b)
  {
    var x := NatToDec(a) + "," + NatToDec(b);
    var s := MemText(a, b);
    assert s == ['('] + x + [')'];
    assert s[1..|s| - 1] == x;
  }

  /** `parse_MEM` reads a written MEM back. */
  lemma ParseMemText(a: nat, b: nat)
    requires a <= USIZE_MAX && b <= USIZE_MAX
    ensures ParseMem(MemText(a, b)) == Some((a, b))
  {
    var da, db := NatToDec(a), NatToDec(b);
    MemTextInner(a, b);
    DigitsHaveNoComma(a);
    DigitsHaveNoComma(b);
    SplitTwo(da, ',', db);
    ParseTwo(a, b);
  }

  lemma DigitsHaveNoComma(n: nat)
    ensures ',' !in NatToDec(n)
  {
    NatToDecShape(n);
  }

  lemma ParseTwo(a: nat, b: nat)
    requires a <= USIZE_MAX && b <= USIZE_MAX
    ensures ParseNumbers([NatToDec(a), NatToDec(b)]) == Some([a, b])
  {
    var da, db := NatToDec(a), NatToDec(b);
    ParseUsizeOfDec(a);
    ParseUsizeOfDec(b);
    ParseNumbersCons(db, []);
    assert [db] + [] == [db];
    ParseNumbersCons(da, [db]);
    assert [da] + [db] == [da, db];
    assert [b] + [] == [b];
    assert [a] + [b] == [a, b];
  }

  lemma ParseNumbersCons(t: string, ts: seq<string>)
    ensures ParseNumbers([t] + ts) ==
      if ParseUsize(t).Some? && ParseNumbers(ts).Some? then Some([ParseUsize(t).value] + ParseNumbers(ts).value) else None
  {
    assert ([t] + ts)[1..] == ts;
  }

  function ParseMems(ts: seq<string>): (r: Option<seq<(nat, nat)>>)
    ensures r.Some? ==> |r.value| == |ts|
  {
    if |ts| == 0 then Some([])
    else
      var x := ParseMem(ts[0]);
      var rest := ParseMems(ts[1..]);
      if x.None? || rest.None? then None else Some([x.value] + rest.value)
  }

  // ---------------------------------------------------------------------------
  // get_mems (src/bin/main.rs)

  /** The reference position `get_mems` reports for a pointer: the pointer plus one
      for every separator inserted before it. */
  function Adjusted(q: nat): (x: nat)
    ensures q <= x && x - q == q / SEPARATOR_PERIOD
  {
    q + q / SEPARATOR_PERIOD
  }

  /** Each MEM (a, b) of a line becomes (adjusted ptrs[a], b); a pointer index past the
      pointer line panics, and so does a sum past `usize::MAX`. */
  function Place(mems: seq<(nat, nat)>, ptrs: seq<nat>): (r: Option<seq<(nat, nat)>>)
    ensures r.Some? <==> forall k :: 0 <= k < |mems| ==> mems[k].0 < |ptrs| && Adjusted(ptrs[mems[k].0]) <= USIZE_MAX
    ensures r.Some? ==> |r.value| == |mems|
    ensures r.Some? ==> forall k :: 0 <= k < |mems| ==> r.value[k] == (Adjusted(ptrs[mems[k].0]), mems[k].1)
  {
    if |mems| == 0 then Some([])
    else
      var (a, b) := mems[0];
      var rest := Place(mems[1..], ptrs);
      if a >= |ptrs| || Adjusted(ptrs[a]) > USIZE_MAX || rest.None? then None
      else Some([(Adjusted(ptrs[a]), b)] + rest.value)
  }

  predicate IsHeader(line: string) { |line| > 0 && line[0] == '>' }

  /** What one pair of lines contributes: nothing for a header, else the placed MEMs. */
  function LineMems(memLine: string, ptrLine: string): (r: Option<seq<(nat, nat)>>)
    ensures IsHeader(memLine) ==> r == Some([])
  {
    if IsHeader(memLine) then Some([])
    else
      var mems := ParseMems(SplitWhitespace(memLine));
      var ptrs := ParseNumbers(SplitWhitespace(ptrLine));
      if mems.None? || ptrs.None? then None else Place(mems.value, ptrs.value)
  }

  /** What each pair of lines contributes, up to the end of the shorter file. */
  function LineResults(m: seq<string>, p: seq<string>): (r: seq<Option<seq<(nat, nat)>>>)
    ensures |r| == Min(|m|, |p|)
  {
    seq(Min(|m|, |p|), i requires 0 <= i < Min(|m|, |p|) => LineMems(m[i], p[i]))
  }

  /** The contributions of the first n lines joined in order; a failing line fails the
      whole. */
  function JoinUpTo(ls: seq<Option<seq<(nat, nat)>>>, n: nat): (r: Option<seq<(nat, nat)>>)
    requires n <= |ls|
    decreases n
  {
    if n == 0 then Some([])
    else
      var before := JoinUpTo(ls, n - 1);
      if before.None? || ls[n - 1].None? then None else Some(before.value + ls[n - 1].value)
  }

  function Min(a: nat, b: nat): nat { if a < b then a else b }

  /** `get_mems`: the lines are read in pairs until either file ends. */
  function AllMems(m: seq<string>, p: seq<string>): Option<seq<(nat, nat)>>
  {
    var ls := LineResults(m, p);
    JoinUpTo(ls, |ls|)
  }

  /** The loop of `get_mems`. */
  method GetMems(m: seq<string>, p: seq<string>) returns (r: Option<seq<(nat, nat)>>)
    ensures r == AllMems(m, p)
  {
    ghost var ls := LineResults(m, p);
    var res: seq<(nat, nat)> := [];
    var i: nat := 0;
    while i < |m| && i < |p|
      invariant i <= |ls|
      invariant JoinUpTo(ls, i) == Some(res)
      decreases |m| - i
    {
      var line := ReadLinePair(m[i], p[i]);
      assert ls[i] == line;
      if line.None? {
        FailureStays(ls, i + 1, |ls|);
        return None;
      }
      res := res + line.value;
      i := i + 1;
    }
    return Some(res);
  }

  /** The body of the `get_mems` loop on one pair of lines. */
  method ReadLinePair(memLine: string, ptrLine: string) returns (r: Option<seq<(nat, nat)>>)
    ensures r == LineMems(memLine, ptrLine)
  {
    if IsHeader(memLine) {
      return Some([]);
    }
    var mems := ParseMems(SplitWhitespace(memLine));
    var ptrs := ParseNumbers(SplitWhitespace(ptrLine));
    if mems.None? || ptrs.None? {
      return None;
    }
    r := PlaceLoop(mems.value, ptrs.value);
  }

  /** Once a line fails, reading on fails too. */
  lemma {:induction false} FailureStays(ls: seq<Option<seq<(nat, nat)>>>, i: nat, n: nat)
    requires i <= n <= |ls|
    requires JoinUpTo(ls, i).None?
    ensures JoinUpTo(ls, n).None?
    decreases n - i
  {
    if i < n {
      FailureStays(ls, i + 1, n);
    }
  }

  /** The inner `for mem in &mems` loop. */
  method PlaceLoop(mems: seq<(nat, nat)>, ptrs: seq<nat>) returns (r: Option<seq<(nat, nat)>>)
    ensures r == Place(mems, ptrs)
  {
    var out: seq<(nat, nat)> := [];
    for k := 0 to |mems|
      invariant |out| == k && forall j :: 0 <= j < k ==> mems[j].0 < |ptrs| && Adjusted(ptrs[mems[j].0]) <= USIZE_MAX
      invariant forall j :: 0 <= j < k ==> out[j] == (Adjusted(ptrs[mems[j].0]), mems[j].1)
    {
      var (a, b) := mems[k];
      if a >= |ptrs| {
        return None;
      }
      var adj := ptrs[a] / SEPARATOR_PERIOD;
      if ptrs[a] + adj > USIZE_MAX {
        return None;
      }
      out := out + [(ptrs[a] + adj, b)];
    }
    assert Place(mems, ptrs).Some?;
    assert Place(mems, ptrs).value == out;
    return Some(out);
  }

  /** Reading stops when either file ends: lines past the end of the shorter file are
      never looked at. */
  lemma ExtraLinesIgnored(m: seq<string>, p: seq<string>, extra: seq<string>)
    ensures |m| >= |p| ==> AllMems(m + extra, p) == AllMems(m, p)
    ensures |p| >= |m| ==> AllMems(m, p + extra) == AllMems(m, p)
  {
    if |m| >= |p| {
      var a, b := LineResults(m + extra, p), LineResults(m, p);
      forall i | 0 <= i < |b| ensures a[i] == b[i] {
        assert (m + extra)[i] == m[i];
      }
      assert a == b;
    }
    if |p| >= |m| {
      var a, b := LineResults(m, p + extra), LineResults(m, p);
      forall i | 0 <= i < |b| ensures a[i] == b[i] {
        assert (p + extra)[i] == p[i];
      }
      assert a == b;
    }
  }

  /** Header lines contribute nothing, whatever the pointer file holds beside them. */
  lemma {:induction false} HeadersOnly(m: seq<string>, p: seq<string>, n: nat)
    requires n <= |m| && n <= |p|
    requires forall i :: 0 <= i < n ==> IsHeader(m[i])
    ensures JoinUpTo(LineResults(m, p), n) == Some([])
    decreases n
  {
    if n > 0 {
      HeadersOnly(m, p, n - 1);
      assert IsHeader(m[n - 1]);
      var none: seq<(nat, nat)> := [];
      assert none + none == none;
    }
  }

  // ---------------------------------------------------------------------------
  // MEMReader (src/bin/main3/mem.rs)

  /** What one call of `next` gives: the end, one read with its MEMs as (length, read
      position, reference position) triples, or a panic. */
  datatype Outcome = Exhausted | Record(id: string, mems: seq<(nat, nat, nat)>) | Malformed

  /** Each MEM (a, b) of the line becomes (b, a, ptrs[a]); a pointer index past the
      pointer line panics. */
  function Triples(mems: seq<(nat, nat)>, ptrs: seq<nat>): (r: Option<seq<(nat, nat, nat)>>)
    ensures r.Some? <==> forall k :: 0 <= k < |mems| ==> mems[k].0 < |ptrs|
    ensures r.Some? ==> |r.value| == |mems|
    ensures r.Some? ==> forall k :: 0 <= k < |mems| ==> r.value[k] == (mems[k].1, mems[k].0, ptrs[mems[k].0])
  {
    if |mems| == 0 then Some([])
    else
      var (a, b) := mems[0];
      var rest := Triples(mems[1..], ptrs);
      if a >= |ptrs| || rest.None? then None else Some([(b, a, ptrs[a])] + rest.value)
  }

  function Drop1(s: seq<string>): seq<string> { if |s| == 0 then s else s[1..] }

  /** The triples of a read from its MEM line and its pointer line, if both parse and
      every pointer index is in range. */
  function RecordOf(memLine: string, ptrLine: string): Option<seq<(nat, nat, nat)>>
  {
    var mems := ParseMems(SplitWhitespace(memLine));
    var ptrs := ParseNumbers(SplitWhitespace(ptrLine));
    if mems.None? || ptrs.None? then None else Triples(mems.value, ptrs.value)
  }

  /** One call of `next` on the remaining lines m and p: the outcome and the lines left.
      Both iterators are advanced before either is checked; the header lines must be
      equal and start with '>'; then one more line is taken from each. */
  function NextOf(m: seq<string>, p: seq<string>): (r: (Outcome, seq<string>, seq<string>))
    ensures r.0 == Exhausted <==> |m| == 0 || |p| == 0
    ensures r.0.Record? ==> |m| >= 2 && |p| >= 2 && m[0] == p[0] && m[0] == ">" + r.0.id
    ensures r.0.Record? ==> r.1 == m[2..] && r.2 == p[2..]
    ensures r.0.Record? ==> RecordOf(m[1], p[1]) == Some(r.0.mems)
  {
    if |m| == 0 || |p| == 0 then (Exhausted, Drop1(m), Drop1(p))
    else if m[0] != p[0] || !IsHeader(m[0]) then (Malformed, m[1..], p[1..])
    else if |m| < 2 then (Malformed, m[1..], p[1..])
    else if |p| < 2 then (Malformed, m[2..], p[1..])
    else
      var t := RecordOf(m[1], p[1]);
      if t.None? then (Malformed, m[2..], p[2..])
      else
        assert m[0] == ">" + m[0][1..];
        (Record(m[0][1..], t.value), m[2..], p[2..])
  }

  /** The `for mem in mems` loop of `next`. */
  method TriplesLoop(mems: seq<(nat, nat)>, ptrs: seq<nat>) returns (r: Option<seq<(nat, nat, nat)>>)
    ensures r == Triples(mems, ptrs)
  {
    var out: seq<(nat, nat, nat)> := [];
    for k := 0 to |mems|
      invariant |out| == k && forall j :: 0 <= j < k ==> mems[j].0 < |ptrs|
      invariant forall j :: 0 <= j < k ==> out[j] == (mems[j].1, mems[j].0, ptrs[mems[j].0])
    {
      var (a, b) := mems[k];
      if a >= |ptrs| {
        return None;
      }
      out := out + [(b, a, ptrs[a])];
    }
    assert Triples(mems, ptrs).Some?;
    assert Triples(mems, ptrs).value == out;
    return Some(out);
  }

  /** The reader holds the lines not yet consumed from each file. */
  class MemReader {
    var memLines: seq<string>
    var ptrLines: seq<string>

    constructor(m: seq<string>, p: seq<string>)
      ensures memLines == m && ptrLines == p
    {
      memLines := m;
      ptrLines := p;
    }

    /** `Iterator::next`. */
    method Next() returns (r: Outcome)
      modifies this
      ensures (r, memLines, ptrLines) == NextOf(old(memLines), old(ptrLines))
      ensures r.Record? ==> memLines == old(memLines)[2..] && ptrLines == old(ptrLines)[2..]
    {
      var m, p := memLines, ptrLines;
      if |m| == 0 || |p| == 0 {
        memLines, ptrLines := Drop1(m), Drop1(p);
        return Exhausted;
      }
      var id1, id2 := m[0], p[0];
      if id1 != id2 || !IsHeader(id1) {
        memLines, ptrLines := m[1..], p[1..];
        return Malformed;
      }
      if |m| < 2 {
        memLines, ptrLines := m[1..], p[1..];
        return Malformed;
      }
      if |p| < 2 {
        memLines, ptrLines := m[2..], p[1..];
        return Malformed;
      }
      memLines, ptrLines := m[2..], p[2..];
      var mems := ParseMems(SplitWhitespace(m[1]));
      var ptrs := ParseNumbers(SplitWhitespace(p[1]));
      if mems.None? || ptrs.None? {
        return Malformed;
      }
      var resulting := TriplesLoop(mems.value, ptrs.value);
      if resulting.None? {
        return Malformed;
      }
      assert id1 == ">" + id1[1..];
      r := Record(id1[1..], resulting.value);
    }
  }

  /** A written MEM holds no whitespace, so it is one token. */
  lemma MemTextToken(a: nat, b: nat)
    ensures SplitWhitespace(MemText(a, b)) == [MemText(a, b)]
  {
    var da, db := NatToDec(a), NatToDec(b);
    NatToDecShape(a);
    NatToDecShape(b);
    var t := MemText(a, b);
    assert t == "(" + da + "," + db + ")";
    forall i | 0 <= i < |t| ensures !IsRustSpace(t[i]) {
      if 1 <= i < 1 + |da| {
        assert t[i] == da[i - 1];
      } else if 2 + |da| <= i < |t| - 1 {
        assert t[i] == db[i - 2 - |da|];
      }
    }
    TokensOfToken(t, IsRustSpace);
  }

  lemma ParseMemsOne(t: string)
    ensures ParseMem(t).Some? ==> ParseMems([t]) == Some([ParseMem(t).value])
  {
    var none: seq<string> := [];
    assert [t][1..] == none;
    assert ParseMems(none) == Some([]);
    if ParseMem(t).Some? {
      assert [ParseMem(t).value] + [] == [ParseMem(t).value];
    }
  }

  lemma TriplesOne(a: nat, b: nat, ptrs: seq<nat>)
    requires a < |ptrs|
    ensures Triples([(a, b)], ptrs) == Some([(b, a, ptrs[a])])
  {
    var none: seq<(nat, nat)> := [];
    assert [(a, b)][1..] == none;
    assert Triples(none, ptrs) == Some([]);
    assert [(b, a, ptrs[a])] + [] == [(b, a, ptrs[a])];
  }

  /** A header, a MEM line and a pointer line that parse give the header's read. */
  lemma NextOfParsed(h: string, x: string, y: string, ms: seq<(nat, nat)>, ps: seq<nat>, ts: seq<(nat, nat, nat)>)
    requires IsHeader(h)
    requires ParseMems(SplitWhitespace(x)) == Some(ms) && ParseNumbers(SplitWhitespace(y)) == Some(ps)
    requires Triples(ms, ps) == Some(ts)
    ensures NextOf([h, x], [h, y]).0 == Record(h[1..], ts)
  {
  }

  /** A read's record round-trips: a header, a line of one written MEM and a pointer
      line give the read's id and the triple (length, read position, pointer). */
  lemma NextOfWritten(id: string, a: nat, b: nat, ptrs: seq<nat>, pLine: string)
    requires a <= USIZE_MAX && b <= USIZE_MAX && a < |ptrs|
    requires ParseNumbers(SplitWhitespace(pLine)) == Some(ptrs)
    ensures NextOf([">" + id, MemText(a, b)], [">" + id, pLine]).0 == Record(id, [(b, a, ptrs[a])])
  {
    var t := MemText(a, b);
    ParseMemText(a, b);
    MemTextToken(a, b);
    ParseMemsOne(t);
    TriplesOne(a, b, ptrs);
    assert (">" + id)[1..] == id;
    NextOfParsed(">" + id, t, pLine, [(a, b)], ptrs, [(b, a, ptrs[a])]);
  }
}
