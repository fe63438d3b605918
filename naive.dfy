/** The naive tag-array construction of src/naive.rs. A GFA path is given by its
    `segment_names` text ("12+,7-,3+"); node names and sequences are byte strings,
    one char per byte; the node table is a map from name to sequence. A panic of the
    source (an `unwrap` on a missing node, a slice that underflows, an index out of
    range, a byte `reverse_complement` rejects) is the result `None`. */
module Naive {
  import opened Wrappers
  import opened Text
  import Dna

  // ---------------------------------------------------------------------------
  // parse_segments

  /** A path step as `parse_segments` returns it: the node name and the sign byte. */
  type Step = (string, char)

  function StepOf(piece: string): Option<Step>
  {
    if |piece| == 0 then None else Some((piece[..|piece| - 1], piece[|piece| - 1]))
  }

  function StepsOf(pieces: seq<string>): (r: Option<seq<Step>>)
    ensures r.Some? ==> |r.value| == |pieces|
  {
    if |pieces| == 0 then Some([])
    else
      var x := StepOf(pieces[0]);
      var rest := StepsOf(pieces[1..]);
      if x.None? || rest.None? then None else Some([x.value] + rest.value)
  }

  /** `parse_segments`: the pieces between commas, each split into all but its last
      byte and its last byte. An empty piece (an empty text, a leading, doubled or
      trailing comma) makes a slice bound underflow or cross, which panics. */
  function Segments(s: string): Option<seq<Step>>
  {
    StepsOf(SplitOn(s, ','))
  }

  function Prepend(xs: seq<Step>, r: Option<seq<Step>>): Option<seq<Step>>
  {
    if r.None? then None else Some(xs + r.value)
  }

  /** The loop of `parse_segments`, with `start` just past the last comma seen. */
  method ParseSegments(s: string) returns (r: Option<seq<Step>>)
    ensures r == Segments(s)
  {
    var start: nat := 0;
    var segments: seq<Step> := [];
    ghost var whole := Segments(s);
    assert s[0..] == s;
    if whole.Some? {
      assert segments + whole.value == whole.value;
    }
    for i := 0 to |s|
      invariant start <= i
      invariant forall j :: start <= j < i ==> s[j] != ','
      invariant whole == Prepend(segments, Segments(s[start..]))
    {
      if s[i] == ',' {
        CommaStep(s, start, i, segments);
        if i == start {
          return None;
        }
        segments := segments + [(s[start..i - 1], s[i - 1])];
        start := i + 1;
      }
    }
    EndStep(s, start, segments);
    if start == |s| {
      return None;
    }
    segments := segments + [(s[start..|s| - 1], s[|s| - 1])];
    return Some(segments);
  }

  /** A comma at i ends the piece that began at `start`. */
  lemma CommaStep(s: string, start: nat, i: nat, segments: seq<Step>)
    requires start <= i < |s| && s[i] == ','
    requires forall j :: start <= j < i ==> s[j] != ','
    ensures i == start ==> Segments(s[start..]).None?
    ensures i > start ==>
      Prepend(segments, Segments(s[start..])) == Prepend(segments + [(s[start..i - 1], s[i - 1])], Segments(s[i + 1..]))
  {
    var t, k := s[start..], i - start;
    forall j | 0 <= j < k ensures t[j] != ',' {
      assert t[j] == s[start + j];
    }
    assert t[k] == s[i];
    SplitAtComma(t, k);
    if i > start {
      assert t[..k - 1] == s[start..i - 1] && t[k - 1] == s[i - 1] && t[k + 1..] == s[i + 1..];
      PrependTwice(segments, (s[start..i - 1], s[i - 1]), Segments(s[i + 1..]));
    }
  }

  /** After the last comma, the rest of the text is the last piece. */
  lemma EndStep(s: string, start: nat, segments: seq<Step>)
    requires start <= |s|
    requires forall j :: start <= j < |s| ==> s[j] != ','
    ensures start == |s| ==> Segments(s[start..]).None?
    ensures start < |s| ==> Prepend(segments, Segments(s[start..])) == Some(segments + [(s[start..|s| - 1], s[|s| - 1])])
  {
    var t := s[start..];
    forall j | 0 <= j < |t| ensures t[j] != ',' {
      assert t[j] == s[start + j];
    }
    LastPiece(t);
    if start < |s| {
      assert t[..|t| - 1] == s[start..|s| - 1] && t[|t| - 1] == s[|s| - 1];
    }
  }

  /** The first comma of `t` at k ends the first piece. */
  lemma SplitAtComma(t: string, k: nat)
    requires k < |t| && t[k] == ','
    requires forall j :: 0 <= j < k ==> t[j] != ','
    ensures Segments(t) == if k == 0 then None else Prepend([(t[..k - 1], t[k - 1])], Segments(t[k + 1..]))
  {
    FindCharFirst(t, ',', k);
    var rest := SplitOn(t[k + 1..], ',');
    assert SplitOn(t, ',') == [t[..k]] + rest;
    assert ([t[..k]] + rest)[1..] == rest;
    if k > 0 {
      assert t[..k][..k - 1] == t[..k - 1];
    }
  }

  /** Text without a comma is one piece. */
  lemma LastPiece(t: string)
    requires forall j :: 0 <= j < |t| ==> t[j] != ','
    ensures Segments(t) == if |t| == 0 then None else Some([(t[..|t| - 1], t[|t| - 1])])
  {
    assert SplitOn(t, ',') == [t];
    var none: seq<string> := [];
    assert [t][1..] == none;
    assert StepsOf(none) == Some([]);
    if |t| > 0 {
      var x := (t[..|t| - 1], t[|t| - 1]);
      assert StepOf(t) == Some(x);
      assert [x] + [] == [x];
    }
  }

  lemma PrependTwice(xs: seq<Step>, x: Step, r: Option<seq<Step>>)
    ensures Prepend(xs, Prepend([x], r)) == Prepend(xs + [x], r)
  {
    if r.Some? {
      assert xs + ([x] + r.value) == (xs + [x]) + r.value;
    }
  }

  /** A step written back: its name followed by its sign. */
  function StepText(x: Step): string { x.0 + [x.1] }

  function StepTexts(xs: seq<Step>): (r: seq<string>)
    ensures |r| == |xs|
  {
    seq(|xs|, k requires 0 <= k < |xs| => StepText(xs[k]))
  }

  lemma {:induction false} StepsOfTexts(xs: seq<Step>)
    ensures StepsOf(StepTexts(xs)) == Some(xs)
    decreases |xs|
  {
    if |xs| > 0 {
      var ts := StepTexts(xs);
      assert ts[1..] == StepTexts(xs[1..]);
      StepsOfTexts(xs[1..]);
      var t := StepText(xs[0]);
      assert t[..|t| - 1] == xs[0].0;
      assert [xs[0]] + xs[1..] == xs;
    }
  }

  lemma {:induction false} TextsOfSteps(pieces: seq<string>, xs: seq<Step>)
    requires StepsOf(pieces) == Some(xs)
    ensures StepTexts(xs) == pieces
    decreases |pieces|
  {
    if |pieces| > 0 {
      TextsOfSteps(pieces[1..], xs[1..]);
      var p := pieces[0];
      assert StepText(xs[0]) == p[..|p| - 1] + [p[|p| - 1]] == p;
      assert StepTexts(xs) == [StepText(xs[0])] + StepTexts(xs[1..]);
      assert pieces == [p] + pieces[1..];
    }
  }

  /** Neither a name nor a sign holds a comma. */
  predicate CommaFree(xs: seq<Step>)
  {
    forall k :: 0 <= k < |xs| ==> ',' !in xs[k].0 && xs[k].1 != ','
  }

  /** Steps joined with commas are read back as the same steps. */
  lemma SegmentsOfJoined(xs: seq<Step>)
    requires |xs| > 0 && CommaFree(xs)
    ensures Segments(JoinWith(StepTexts(xs), ",")) == Some(xs)
  {
    var ts := StepTexts(xs);
    forall k | 0 <= k < |ts| ensures ',' !in ts[k] {
      assert ts[k] == xs[k].0 + [xs[k].1];
    }
    SplitOnJoin(ts, ',');
    StepsOfTexts(xs);
  }

  /** What `parse_segments` reads, joined with commas again, is the text it read. */
  lemma JoinedOfSegments(s: string, xs: seq<Step>)
    requires Segments(s) == Some(xs)
    ensures JoinWith(StepTexts(xs), ",") == s
  {
    TextsOfSteps(SplitOn(s, ','), xs);
    JoinSplitOn(s, ',');
  }

  lemma SegmentsExample()
    ensures Segments("12+,7-") == Some([("12", '+'), ("7", '-')])
  {
    var xs: seq<Step> := [("12", '+'), ("7", '-')];
    assert StepText(xs[0]) == "12+" && StepText(xs[1]) == "7-";
    assert StepTexts(xs) == ["12+", "7-"];
    assert JoinWith(["12+", "7-"], ",") == "12+,7-";
    SegmentsOfJoined(xs);
  }

  // ---------------------------------------------------------------------------
  // get_sequence

  /** The text one step contributes: the node's sequence for sign '+', its reverse
      complement for any other sign. */
  function Piece(x: Step, m: map<string, string>): Option<string>
  {
    if x.0 !in m then None else if x.1 == '+' then Some(m[x.0]) else Dna.RevComp(m[x.0])
  }

  /** The steps' pieces one after the other. */
  function SequenceOf(xs: seq<Step>, m: map<string, string>): Option<string>
  {
    if |xs| == 0 then Some([])
    else
      var before := SequenceOf(xs[..|xs| - 1], m);
      var p := Piece(xs[|xs| - 1], m);
      if before.None? || p.None? then None else Some(before.value + p.value)
  }

  /** `get_sequence`. */
  method GetSequence(xs: seq<Step>, m: map<string, string>) returns (r: Option<string>)
    ensures r == SequenceOf(xs, m)
  {
    var sequence: string := [];
    for k := 0 to |xs|
      invariant SequenceOf(xs[..k], m) == Some(sequence)
    {
      assert xs[..k + 1][..k] == xs[..k];
      var (name, sign) := xs[k];
      if name !in m {
        SequenceFails(xs, m, k + 1);
        return None;
      }
      var node := m[name];
      if sign == '+' {
        sequence := sequence + node;
      } else {
        var rc := Dna.ReverseComplement(node);
        if rc.None? {
          SequenceFails(xs, m, k + 1);
          return None;
        }
        sequence := sequence + rc.value;
      }
    }
    assert xs[..|xs|] == xs;
    return Some(sequence);
  }

  lemma {:induction false} SequenceFails(xs: seq<Step>, m: map<string, string>, k: nat)
    requires 0 < k <= |xs| && SequenceOf(xs[..k], m).None?
    ensures SequenceOf(xs, m).None?
    decreases |xs| - k
  {
    if k < |xs| {
      assert xs[..k + 1][..k] == xs[..k];
      SequenceFails(xs, m, k + 1);
    } else {
      assert xs[..k] == xs;
    }
  }

  /** Every step names a node of the table, and every node is DNA. */
  predicate KnownDna(xs: seq<Step>, m: map<string, string>)
  {
    forall k :: 0 <= k < |xs| ==> xs[k].0 in m && Dna.IsDna(m[xs[k].0])
  }

  /** The total length of the steps' nodes. */
  function NodeTotal(xs: seq<Step>, m: map<string, string>): nat
  {
    if |xs| == 0 then 0
    else
      var x := xs[|xs| - 1];
      NodeTotal(xs[..|xs| - 1], m) + (if x.0 in m then |m[x.0]| else 0)
  }

  /** Over DNA nodes the sequence exists, and its length is the total node length
      whatever the signs. */
  lemma {:induction false} SequenceLength(xs: seq<Step>, m: map<string, string>)
    requires KnownDna(xs, m)
    ensures SequenceOf(xs, m).Some? && |SequenceOf(xs, m).value| == NodeTotal(xs, m)
    ensures SequenceOf(xs, m).Some? && Dna.IsDna(SequenceOf(xs, m).value)
    decreases |xs|
  {
    if |xs| > 0 {
      var ys := xs[..|xs| - 1];
      assert KnownDna(ys, m) by {
        forall k | 0 <= k < |ys| ensures ys[k].0 in m && Dna.IsDna(m[ys[k].0]) {
          assert ys[k] == xs[k];
        }
      }
      SequenceLength(ys, m);
      var x := xs[|xs| - 1];
      PieceFlipped(x, m);
      var a, b := SequenceOf(ys, m).value, Piece(x, m).value;
      forall i | 0 <= i < |a + b| ensures Dna.Complement((a + b)[i]).Some? {
        if i < |a| {
          assert (a + b)[i] == a[i];
        } else {
          assert (a + b)[i] == b[i - |a|];
        }
      }
    }
  }

  /** A path walked backwards: the steps reversed, each with the other sign. */
  function Flip(x: Step): Step { (x.0, if x.1 == '+' then '-' else '+') }

  function Backwards(xs: seq<Step>): (r: seq<Step>)
    ensures |r| == |xs|
  {
    seq(|xs|, k requires 0 <= k < |xs| => Flip(xs[|xs| - 1 - k]))
  }

  /** Walking a path backwards spells the reverse complement of walking it forwards:
      the property that makes the "-" steps of `get_sequence` consistent. */
  lemma {:induction false} SequenceBackwards(xs: seq<Step>, m: map<string, string>)
    requires KnownDna(xs, m)
    ensures SequenceOf(xs, m).Some? && Dna.RevComp(SequenceOf(xs, m).value) == SequenceOf(Backwards(xs), m)
    decreases |xs|
  {
    if |xs| == 0 {
      assert Dna.RevComp([]) == Some([]);
    } else {
      var ys, x := xs[..|xs| - 1], xs[|xs| - 1];
      KnownDnaPrefix(xs, m);
      SequenceBackwards(ys, m);
      SequenceLength(ys, m);
      PieceFlipped(x, m);
      var a, b := SequenceOf(ys, m).value, Piece(x, m).value;
      assert SequenceOf(xs, m) == Some(a + b);
      Dna.RevCompConcat(a, b);
      BackwardsSnoc(xs);
      SequenceCons(Flip(x), Backwards(ys), m);
    }
  }

  lemma KnownDnaPrefix(xs: seq<Step>, m: map<string, string>)
    requires |xs| > 0 && KnownDna(xs, m)
    ensures KnownDna(xs[..|xs| - 1], m) && xs[|xs| - 1].0 in m && Dna.IsDna(m[xs[|xs| - 1].0])
  {
    var ys := xs[..|xs| - 1];
    forall k | 0 <= k < |ys| ensures ys[k].0 in m && Dna.IsDna(m[ys[k].0]) {
      assert ys[k] == xs[k];
    }
  }

  lemma BackwardsSnoc(xs: seq<Step>)
    requires |xs| > 0
    ensures Backwards(xs) == [Flip(xs[|xs| - 1])] + Backwards(xs[..|xs| - 1])
  {
    var ys := xs[..|xs| - 1];
    var a, b := Backwards(xs), [Flip(xs[|xs| - 1])] + Backwards(ys);
    forall k | 0 <= k < |a| ensures a[k] == b[k] {
      if k > 0 {
        assert b[k] == Backwards(ys)[k - 1] == Flip(ys[|ys| - 1 - (k - 1)]);
      }
    }
  }

  /** The piece of a flipped step is the reverse complement of the step's piece. */
  lemma PieceFlipped(x: Step, m: map<string, string>)
    requires x.0 in m && Dna.IsDna(m[x.0])
    ensures Piece(x, m).Some? && Dna.IsDna(Piece(x, m).value)
    ensures Dna.RevComp(Piece(x, m).value) == Piece(Flip(x), m)
  {
    var s := m[x.0];
    Dna.RevCompInvolution(s);
    Dna.RevCompIsDna(s);
  }

  /** The sequence of a path with one more step in front. */
  lemma {:induction false} SequenceCons(x: Step, xs: seq<Step>, m: map<string, string>)
    ensures SequenceOf([x] + xs, m) ==
      var p, rest := Piece(x, m), SequenceOf(xs, m);
      if p.None? || rest.None? then None else Some(p.value + rest.value)
    decreases |xs|
  {
    var ys := [x] + xs;
    if |xs| == 0 {
      assert ys[..0] == [];
      if Piece(x, m).Some? {
        assert [] + Piece(x, m).value == Piece(x, m).value + [];
      }
    } else {
      assert ys[..|ys| - 1] == [x] + xs[..|xs| - 1];
      assert ys[|ys| - 1] == xs[|xs| - 1];
      SequenceCons(x, xs[..|xs| - 1], m);
      var p, q := Piece(x, m), SequenceOf(xs[..|xs| - 1], m);
      var l := Piece(xs[|xs| - 1], m);
      if p.Some? && q.Some? && l.Some? {
        assert p.value + q.value + l.value == p.value + (q.value + l.value);
      }
    }
  }

  // ---------------------------------------------------------------------------
  // create_sequence

  /** `create_sequence`: every path's sequence followed by '$'; `lengths` gets the
      position of each '$' (the text length before it is pushed). */
  function TextOf(paths: seq<string>, m: map<string, string>): Option<(string, seq<nat>)>
  {
    if |paths| == 0 then Some(([], []))
    else
      var before := TextOf(paths[..|paths| - 1], m);
      var xs := Segments(paths[|paths| - 1]);
      if before.None? || xs.None? then None
      else
        var q := SequenceOf(xs.value, m);
        if q.None? then None
        else
          var body := before.value.0 + q.value;
          Some((body + "$", before.value.1 + [|body|]))
  }

  method CreateSequence(paths: seq<string>, m: map<string, string>) returns (r: Option<(string, seq<nat>)>)
    ensures r == TextOf(paths, m)
  {
    var text: string := [];
    var lengths: seq<nat> := [];
    for p := 0 to |paths|
      invariant TextOf(paths[..p], m) == Some((text, lengths))
    {
      assert paths[..p + 1][..p] == paths[..p];
      var xs := ParseSegments(paths[p]);
      if xs.None? {
        TextFails(paths, m, p + 1);
        return None;
      }
      var q := GetSequence(xs.value, m);
      if q.None? {
        TextFails(paths, m, p + 1);
        return None;
      }
      text := text + q.value;
      lengths := lengths + [|text|];
      text := text + "$";
    }
    assert paths[..|paths|] == paths;
    return Some((text, lengths));
  }

  lemma {:induction false} TextFails(paths: seq<string>, m: map<string, string>, k: nat)
    requires 0 < k <= |paths| && TextOf(paths[..k], m).None?
    ensures TextOf(paths, m).None?
    decreases |paths| - k
  {
    if k < |paths| {
      assert paths[..k + 1][..k] == paths[..k];
      TextFails(paths, m, k + 1);
    } else {
      assert paths[..k] == paths;
    }
  }

  /** `lengths` lists the separator positions in increasing order, and the text ends
      with the last one. */
  predicate Separated(text: string, lengths: seq<nat>)
  {
    (forall k :: 0 <= k < |lengths| ==> lengths[k] < |text| && text[lengths[k]] == '$') &&
    (forall k, l :: 0 <= k < l < |lengths| ==> lengths[k] < lengths[l]) &&
    (if |lengths| == 0 then text == [] else |text| == lengths[|lengths| - 1] + 1)
  }

  lemma {:induction false} TextShape(paths: seq<string>, m: map<string, string>)
    requires TextOf(paths, m).Some?
    ensures |TextOf(paths, m).value.1| == |paths|
    ensures Separated(TextOf(paths, m).value.0, TextOf(paths, m).value.1)
    decreases |paths|
  {
    if |paths| > 0 {
      var ps := paths[..|paths| - 1];
      TextShape(ps, m);
      var (text, lengths) := TextOf(ps, m).value;
      var (text2, lengths2) := TextOf(paths, m).value;
      var n := |lengths|;
      assert lengths2[..n] == lengths && text2[..|text|] == text;
      forall k | 0 <= k < |lengths2| ensures lengths2[k] < |text2| && text2[lengths2[k]] == '$' {
        if k < n {
          assert lengths2[k] == lengths[k] && text2[lengths[k]] == text[lengths[k]];
        }
      }
    }
  }

  // ---------------------------------------------------------------------------
  // tag_array

  /** A tag: the step's name with its sign, and the offset in the node. */
  type Tag = (string, nat)

  /** The tag vector and the text position `j` of the loops. */
  type Fill = (seq<Tag>, nat)

  function Blank(n: nat): seq<Tag> { seq(n, _ => ("", 0)) }

  /** `tag[isa[j]] = x; j += 1`; indexing past `isa` or past `tag` panics. */
  function Write(st: Fill, isa: seq<nat>, x: Tag): Option<Fill>
  {
    var (t, j) := st;
    if j >= |isa| || isa[j] >= |t| then None else Some((t[isa[j] := x], j + 1))
  }

  /** The innermost loop: offsets i .. len-1 of one node. */
  function RunNode(st: Option<Fill>, isa: seq<nat>, tagName: string, i: nat, len: nat): Option<Fill>
    decreases len - i
  {
    if st.None? || i >= len then st else RunNode(Write(st.value, isa, (tagName, i)), isa, tagName, i + 1, len)
  }

  /** The loop over the steps of one path; an unknown node name panics at `unwrap`. */
  function RunSteps(st: Option<Fill>, isa: seq<nat>, xs: seq<Step>, m: map<string, string>): Option<Fill>
    decreases |xs|
  {
    if st.None? || |xs| == 0 then st
    else if xs[0].0 !in m then None
    else RunSteps(RunNode(st, isa, StepText(xs[0]), 0, |m[xs[0].0]|), isa, xs[1..], m)
  }

  /** The loop over the paths; `j` skips one position after each path, the '$'. */
  function RunPaths(st: Option<Fill>, isa: seq<nat>, paths: seq<string>, m: map<string, string>): Option<Fill>
    decreases |paths|
  {
    if st.None? || |paths| == 0 then st
    else
      var xs := Segments(paths[0]);
      if xs.None? then None
      else
        var after := RunSteps(st, isa, xs.value, m);
        RunPaths(if after.None? then None else Some((after.value.0, after.value.1 + 1)), isa, paths[1..], m)
  }

  /** `tag_array` on a suffix array of n entries. */
  function TagArrayOf(n: nat, isa: seq<nat>, paths: seq<string>, m: map<string, string>): Option<seq<Tag>>
  {
    var r := RunPaths(Some((Blank(n), 0)), isa, paths, m);
    if r.None? then None else Some(r.value.0)
  }

  /** `tag_array`. */
  method TagArray(sa: seq<nat>, isa: seq<nat>, paths: seq<string>, m: map<string, string>) returns (r: Option<seq<Tag>>)
    ensures r == TagArrayOf(|sa|, isa, paths, m)
  {
    var tag := new Tag[|sa|](_ => ("", 0));
    assert tag[..] == Blank(|sa|);
    var j: nat := 0;
    for p := 0 to |paths|
      invariant RunPaths(Some((Blank(|sa|), 0)), isa, paths, m) == RunPaths(Some((tag[..], j)), isa, paths[p..], m)
    {
      RunPathsAt(Some((tag[..], j)), isa, paths, p, m);
      var xs := ParseSegments(paths[p]);
      if xs.None? {
        return None;
      }
      var ok;
      ok, j := FillSteps(tag, isa, xs.value, m, j);
      if !ok {
        return None;
      }
      j := j + 1;
    }
    assert paths[|paths|..] == [];
    return Some(tag[..]);
  }

  /** One turn of the loop over the paths. */
  lemma RunPathsAt(st: Option<Fill>, isa: seq<nat>, paths: seq<string>, p: nat, m: map<string, string>)
    requires st.Some? && p < |paths|
    ensures RunPaths(st, isa, paths[p..], m) ==
      var xs := Segments(paths[p]);
      if xs.None? then None
      else
        var after := RunSteps(st, isa, xs.value, m);
        RunPaths(if after.None? then None else Some((after.value.0, after.value.1 + 1)), isa, paths[p + 1..], m)
  {
    var rest := paths[p..];
    assert rest[0] == paths[p] && rest[1..] == paths[p + 1..];
  }

  /** The loop over the steps of one path. */
  method FillSteps(tag: array<Tag>, isa: seq<nat>, xs: seq<Step>, m: map<string, string>, j0: nat)
    returns (ok: bool, j: nat)
    modifies tag
    ensures RunSteps(Some((old(tag[..]), j0)), isa, xs, m) == if ok then Some((tag[..], j)) else None
  {
    j := j0;
    for k := 0 to |xs|
      invariant RunSteps(Some((old(tag[..]), j0)), isa, xs, m) == RunSteps(Some((tag[..], j)), isa, xs[k..], m)
    {
      var rest := xs[k..];
      assert rest[0] == xs[k] && rest[1..] == xs[k + 1..];
      var (name, sign) := xs[k];
      if name !in m {
        return false, j;
      }
      var done;
      done, j := FillNode(tag, isa, name + [sign], |m[name]|, j);
      if !done {
        return false, j;
      }
    }
    assert xs[|xs|..] == [];
    return true, j;
  }

  /** The loop over the offsets of one node. */
  method FillNode(tag: array<Tag>, isa: seq<nat>, tagName: string, len: nat, j0: nat) returns (ok: bool, j: nat)
    modifies tag
    ensures RunNode(Some((old(tag[..]), j0)), isa, tagName, 0, len) == if ok then Some((tag[..], j)) else None
  {
    j := j0;
    for i := 0 to len
      invariant RunNode(Some((old(tag[..]), j0)), isa, tagName, 0, len) == RunNode(Some((tag[..], j)), isa, tagName, i, len)
    {
      if j >= |isa| || isa[j] >= tag.Length {
        return false, j;
      }
      ghost var before := tag[..];
      tag[isa[j]] := (tagName, i);
      assert tag[..] == before[isa[j] := (tagName, i)];
      j := j + 1;
    }
    return true, j;
  }

  // ---------------------------------------------------------------------------
  // What tag_array computes, position by position

  /** The tags one node gives its offsets 0 .. len-1. */
  function NodeLabels(tagName: string, len: nat): (r: seq<Option<Tag>>)
    ensures |r| == len
  {
    seq(len, i requires 0 <= i < len => Some((tagName, i)))
  }

  /** The tags of a path's text positions, in order. */
  function StepLabels(xs: seq<Step>, m: map<string, string>): Option<seq<Option<Tag>>>
  {
    if |xs| == 0 then Some([])
    else
      var rest := StepLabels(xs[1..], m);
      if xs[0].0 !in m || rest.None? then None else Some(NodeLabels(StepText(xs[0]), |m[xs[0].0]|) + rest.value)
  }

  /** The tag every position of the text receives, `None` at the '$' after each path. */
  function Labels(paths: seq<string>, m: map<string, string>): Option<seq<Option<Tag>>>
  {
    if |paths| == 0 then Some([])
    else
      var xs := Segments(paths[0]);
      var rest := Labels(paths[1..], m);
      if xs.None? || rest.None? then None
      else
        var sl := StepLabels(xs.value, m);
        if sl.None? then None else Some(sl.value + [None] + rest.value)
  }

  /** The three loops as one pass over the positions: a tag is written at `isa[j]`, a
      separator only advances `j`. */
  function RunFlat(st: Option<Fill>, isa: seq<nat>, ls: seq<Option<Tag>>): Option<Fill>
    decreases |ls|
  {
    if st.None? || |ls| == 0 then st
    else
      var next := if ls[0].None? then Some((st.value.0, st.value.1 + 1)) else Write(st.value, isa, ls[0].value);
      RunFlat(next, isa, ls[1..])
  }

  lemma {:induction false} RunFlatAppend(st: Option<Fill>, isa: seq<nat>, a: seq<Option<Tag>>, b: seq<Option<Tag>>)
    ensures RunFlat(st, isa, a + b) == RunFlat(RunFlat(st, isa, a), isa, b)
    decreases |a|
  {
    if st.Some? && |a| > 0 {
      assert (a + b)[0] == a[0] && (a + b)[1..] == a[1..] + b;
      var next := if a[0].None? then Some((st.value.0, st.value.1 + 1)) else Write(st.value, isa, a[0].value);
      RunFlatAppend(next, isa, a[1..], b);
    } else if st.Some? {
      assert a + b == b;
    }
  }

  lemma {:induction false} RunNodeFlat(st: Option<Fill>, isa: seq<nat>, tagName: string, i: nat, len: nat)
    requires i <= len
    ensures RunNode(st, isa, tagName, i, len) == RunFlat(st, isa, NodeLabels(tagName, len)[i..])
    decreases len - i
  {
    var ls := NodeLabels(tagName, len)[i..];
    if st.Some? && i < len {
      assert ls[0] == Some((tagName, i)) && ls[1..] == NodeLabels(tagName, len)[i + 1..];
      RunNodeFlat(Write(st.value, isa, (tagName, i)), isa, tagName, i + 1, len);
    }
  }

  lemma {:induction false} RunStepsFlat(st: Option<Fill>, isa: seq<nat>, xs: seq<Step>, m: map<string, string>)
    ensures RunSteps(st, isa, xs, m) == if StepLabels(xs, m).None? then None else RunFlat(st, isa, StepLabels(xs, m).value)
    decreases |xs|
  {
    if |xs| > 0 {
      var x, rest := xs[0], xs[1..];
      if st.Some? && x.0 in m {
        var nl := NodeLabels(StepText(x), |m[x.0]|);
        var after := RunNode(st, isa, StepText(x), 0, |m[x.0]|);
        RunNodeFlat(st, isa, StepText(x), 0, |m[x.0]|);
        assert nl[0..] == nl;
        RunStepsFlat(after, isa, rest, m);
        if StepLabels(rest, m).Some? {
          RunFlatAppend(st, isa, nl, StepLabels(rest, m).value);
        }
      }
    }
  }

  lemma {:induction false} RunPathsFlat(st: Option<Fill>, isa: seq<nat>, paths: seq<string>, m: map<string, string>)
    ensures RunPaths(st, isa, paths, m) == if Labels(paths, m).None? then None else RunFlat(st, isa, Labels(paths, m).value)
    decreases |paths|
  {
    if st.Some? && |paths| > 0 {
      var p, rest := paths[0], paths[1..];
      var xs := Segments(p);
      if xs.Some? {
        var after := RunSteps(st, isa, xs.value, m);
        var next := if after.None? then None else Some((after.value.0, after.value.1 + 1));
        assert RunPaths(st, isa, paths, m) == RunPaths(next, isa, rest, m);
        RunStepsFlat(st, isa, xs.value, m);
        RunPathsFlat(next, isa, rest, m);
        var sl, lr := StepLabels(xs.value, m), Labels(rest, m);
        if sl.None? {
          assert next == None;
        } else if lr.Some? {
          assert Labels(paths, m) == Some(sl.value + [None] + lr.value);
          SeparatorStep(st, isa, sl.value, lr.value);
        }
      }
    }
  }

  lemma SeparatorStep(st: Option<Fill>, isa: seq<nat>, a: seq<Option<Tag>>, b: seq<Option<Tag>>)
    ensures var after := RunFlat(st, isa, a);
      RunFlat(st, isa, a + [None] + b) == RunFlat(if after.None? then None else Some((after.value.0, after.value.1 + 1)), isa, b)
  {
    var sep: seq<Option<Tag>> := [None];
    RunFlatAppend(st, isa, a, sep);
    RunFlatAppend(st, isa, a + sep, b);
    assert sep[1..] == [];
  }

  /** The same pass with the position `k` as an index into the whole list of tags. */
  function RunFrom(t: seq<Tag>, isa: seq<nat>, ls: seq<Option<Tag>>, k: nat): Option<seq<Tag>>
    decreases |ls| - k
  {
    if k >= |ls| then Some(t)
    else if ls[k].None? then RunFrom(t, isa, ls, k + 1)
    else if k >= |isa| || isa[k] >= |t| then None
    else RunFrom(t[isa[k] := ls[k].value], isa, ls, k + 1)
  }

  lemma {:induction false} RunFlatFrom(t: seq<Tag>, isa: seq<nat>, ls: seq<Option<Tag>>, k: nat)
    requires k <= |ls|
    ensures RunFlat(Some((t, k)), isa, ls[k..]) ==
      var r := RunFrom(t, isa, ls, k);
      if r.None? then None else Some((r.value, |ls|))
    decreases |ls| - k
  {
    if k < |ls| {
      var rest := ls[k..];
      assert rest[0] == ls[k] && rest[1..] == ls[k + 1..];
      if ls[k].None? {
        RunFlatFrom(t, isa, ls, k + 1);
      } else if k < |isa| && isa[k] < |t| {
        RunFlatFrom(t[isa[k] := ls[k].value], isa, ls, k + 1);
      }
    }
  }

  /** Whether the pass from k writes slot r. */
  predicate Hit(isa: seq<nat>, ls: seq<Option<Tag>>, k: nat, r: nat)
  {
    exists a :: k <= a < |ls| && a < |isa| && ls[a].Some? && isa[a] == r
  }

  /** Every tag to be written has a slot. */
  predicate Fits(isa: seq<nat>, ls: seq<Option<Tag>>, k: nat, n: nat)
  {
    forall a :: k <= a < |ls| && ls[a].Some? ==> a < |isa| && isa[a] < n
  }

  predicate Injective(isa: seq<nat>)
  {
    forall a, b :: 0 <= a < b < |isa| ==> isa[a] != isa[b]
  }

  /** The pass fails exactly when some tag has no slot. */
  lemma {:induction false} RunFromFails(t: seq<Tag>, isa: seq<nat>, ls: seq<Option<Tag>>, k: nat)
    ensures RunFrom(t, isa, ls, k).Some? <==> Fits(isa, ls, k, |t|)
    decreases |ls| - k
  {
    if k < |ls| {
      if ls[k].None? {
        RunFromFails(t, isa, ls, k + 1);
      } else if k < |isa| && isa[k] < |t| {
        RunFromFails(t[isa[k] := ls[k].value], isa, ls, k + 1);
      }
    }
  }

  /** With no slot written twice, every tag lands at its slot and the other slots keep
      what they held. */
  lemma {:induction false} RunFromPlaces(t: seq<Tag>, isa: seq<nat>, ls: seq<Option<Tag>>, k: nat)
    requires Injective(isa) && RunFrom(t, isa, ls, k).Some?
    ensures var u := RunFrom(t, isa, ls, k).value;
      |u| == |t| &&
      (forall a :: k <= a < |ls| && ls[a].Some? ==> a < |isa| && isa[a] < |u| && u[isa[a]] == ls[a].value) &&
      (forall r :: 0 <= r < |t| && !Hit(isa, ls, k, r) ==> u[r] == t[r])
    decreases |ls| - k
  {
    if k < |ls| {
      if ls[k].None? {
        RunFromPlaces(t, isa, ls, k + 1);
        forall r | 0 <= r < |t| && !Hit(isa, ls, k, r) ensures !Hit(isa, ls, k + 1, r) {
        }
      } else {
        var t1 := t[isa[k] := ls[k].value];
        RunFromPlaces(t1, isa, ls, k + 1);
        var u := RunFrom(t1, isa, ls, k + 1).value;
        assert !Hit(isa, ls, k + 1, isa[k]) by {
          forall a | k + 1 <= a < |ls| && a < |isa| ensures isa[a] != isa[k] {
          }
        }
        forall r | 0 <= r < |t| && !Hit(isa, ls, k, r) ensures u[r] == t[r] {
          assert isa[k] != r;
        }
      }
    }
  }

  /** `tag_array`, position by position: for injective `isa` (the inverse of a suffix
      array), the text position j that lies at offset i of a step's node puts the step's
      name with its sign and i at slot isa[j]; slots no position writes keep ("", 0).
      It panics exactly when a tag has no slot. */
  lemma TagArrayPlaces(n: nat, isa: seq<nat>, paths: seq<string>, m: map<string, string>)
    requires Labels(paths, m).Some? && Injective(isa)
    ensures var ls := Labels(paths, m).value;
      TagArrayOf(n, isa, paths, m).Some? <==> Fits(isa, ls, 0, n)
    ensures var ls, r := Labels(paths, m).value, TagArrayOf(n, isa, paths, m);
      r.Some? ==> (|r.value| == n &&
        (forall a :: 0 <= a < |ls| && ls[a].Some? ==> isa[a] < n && r.value[isa[a]] == ls[a].value) &&
        (forall q :: 0 <= q < n && !Hit(isa, ls, 0, q) ==> r.value[q] == ("", 0)))
  {
    var ls := Labels(paths, m).value;
    RunPathsFlat(Some((Blank(n), 0)), isa, paths, m);
    assert ls[0..] == ls;
    RunFlatFrom(Blank(n), isa, ls, 0);
    RunFromFails(Blank(n), isa, ls, 0);
    if Fits(isa, ls, 0, n) {
      RunFromPlaces(Blank(n), isa, ls, 0);
    }
  }

  /** A path that does not parse or names an unknown node makes `tag_array` panic. */
  lemma TagArrayUnknown(n: nat, isa: seq<nat>, paths: seq<string>, m: map<string, string>)
    requires Labels(paths, m).None?
    ensures TagArrayOf(n, isa, paths, m).None?
  {
    RunPathsFlat(Some((Blank(n), 0)), isa, paths, m);
  }

  // ---------------------------------------------------------------------------
  // The tags against the text of create_sequence

  /** No node sequence holds the separator. */
  predicate NoDollar(m: map<string, string>)
  {
    forall name :: name in m ==> '$' !in m[name]
  }

  lemma ComplementNotDollar(s: string)
    requires Dna.IsDna(s)
    ensures '$' !in Dna.RevComp(s).value
  {
    var r := Dna.RevComp(s).value;
    Dna.RevCompIsDna(s);
    forall j | 0 <= j < |r| ensures r[j] != '$' {
      assert Dna.Complement(r[j]).Some?;
    }
  }

  /** A path's sequence and its tags have the same length, every one of its positions
      gets a tag, and the sequence holds no '$'. */
  lemma {:induction false} StepLabelsOfSequence(xs: seq<Step>, m: map<string, string>)
    requires SequenceOf(xs, m).Some? && NoDollar(m)
    ensures StepLabels(xs, m).Some?
    ensures |StepLabels(xs, m).value| == |SequenceOf(xs, m).value|
    ensures forall a :: 0 <= a < |StepLabels(xs, m).value| ==> StepLabels(xs, m).value[a].Some?
    ensures '$' !in SequenceOf(xs, m).value
    decreases |xs|
  {
    if |xs| > 0 {
      var x, rest := xs[0], xs[1..];
      assert [x] + rest == xs;
      SequenceCons(x, rest, m);
      StepLabelsOfSequence(rest, m);
      var p := Piece(x, m).value;
      if x.1 != '+' {
        ComplementNotDollar(m[x.0]);
        assert |p| == |m[x.0]|;
      }
      var nl: seq<Option<Tag>> := NodeLabels(StepText(x), |m[x.0]|);
      var sl: seq<Option<Tag>> := StepLabels(rest, m).value;
      var all := nl + sl;
      forall a | 0 <= a < |all| ensures all[a].Some? {
        if a >= |nl| {
          assert all[a] == sl[a - |nl|];
        }
      }
    } else {
      assert SequenceOf(xs, m).value == "";
    }
  }

  /** The tags of all paths but the last, then the last path's. */
  lemma {:induction false} LabelsSnoc(paths: seq<string>, m: map<string, string>)
    requires |paths| > 0
    ensures Labels(paths, m) ==
      var before, xs := Labels(paths[..|paths| - 1], m), Segments(paths[|paths| - 1]);
      if before.None? || xs.None? || StepLabels(xs.value, m).None? then None
      else Some(before.value + StepLabels(xs.value, m).value + [None])
    decreases |paths|
  {
    var n := |paths|;
    var init := paths[..n - 1];
    if n == 1 {
      assert paths[1..] == [] && init == [];
      var xs := Segments(paths[0]);
      if xs.Some? && StepLabels(xs.value, m).Some? {
        var sl := StepLabels(xs.value, m).value;
        assert [] + sl + [None] == sl + [None] + [];
      }
    } else {
      var rest := paths[1..];
      LabelsSnoc(rest, m);
      assert init[0] == paths[0] && init[1..] == rest[..|rest| - 1];
      assert rest[|rest| - 1] == paths[n - 1];
      var x0, xl := Segments(paths[0]), Segments(paths[n - 1]);
      var mid := Labels(rest[..|rest| - 1], m);
      if x0.Some? && xl.Some? && mid.Some? && StepLabels(x0.value, m).Some? && StepLabels(xl.value, m).Some? {
        var a := StepLabels(x0.value, m).value + [None];
        var b, c := mid.value, StepLabels(xl.value, m).value + [None];
        assert a + (b + c) == a + b + c;
        assert b + StepLabels(xl.value, m).value + [None] == b + c;
        assert a + b + StepLabels(xl.value, m).value + [None] == a + b + c;
      }
    }
  }

  /** Tags matching a text still match it after a path's tags and its sequence, and a
      last position with no tag against the '$'. */
  lemma MatchAppend(l: seq<Option<Tag>>, t: string, sl: seq<Option<Tag>>, q: string)
    requires |l| == |t| && forall a :: 0 <= a < |l| ==> (l[a].None? <==> t[a] == '$')
    requires |sl| == |q| && (forall a :: 0 <= a < |sl| ==> sl[a].Some?) && '$' !in q
    ensures |l + sl + [None]| == |t + q + "$"|
    ensures forall a :: 0 <= a < |l + sl + [None]| ==> ((l + sl + [None])[a].None? <==> (t + q + "$")[a] == '$')
  {
    var l2, t2 := l + sl + [None], t + q + "$";
    forall a | 0 <= a < |l2| ensures l2[a].None? <==> t2[a] == '$' {
      if a < |l| {
        assert l2[a] == l[a] && t2[a] == t[a];
      } else if a < |l| + |sl| {
        assert l2[a] == sl[a - |l|] && t2[a] == q[a - |l|];
      }
    }
  }

  /** The tags line up with the text `create_sequence` builds: one per position, and a
      position has no tag exactly when it holds the '$' after a path. So the counter
      `j` of `tag_array` runs over the same positions as the text. */
  lemma {:induction false} LabelsMatchText(paths: seq<string>, m: map<string, string>)
    requires TextOf(paths, m).Some? && NoDollar(m)
    ensures Labels(paths, m).Some?
    ensures |Labels(paths, m).value| == |TextOf(paths, m).value.0|
    ensures forall a :: 0 <= a < |Labels(paths, m).value| ==>
      (Labels(paths, m).value[a].None? <==> TextOf(paths, m).value.0[a] == '$')
    decreases |paths|
  {
    if |paths| > 0 {
      var init := paths[..|paths| - 1];
      var xs := Segments(paths[|paths| - 1]).value;
      LabelsMatchText(init, m);
      LabelsSnoc(paths, m);
      StepLabelsOfSequence(xs, m);
      var l, t := Labels(init, m).value, TextOf(init, m).value.0;
      var sl, q := StepLabels(xs, m).value, SequenceOf(xs, m).value;
      assert Labels(paths, m).value == l + sl + [None] && TextOf(paths, m).value.0 == t + q + "$";
      MatchAppend(l, t, sl, q);
    }
  }
}
