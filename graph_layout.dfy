/** The linear layout of a GFA graph's paths used on the query side: every step of
    every path, in order, gets the offset at which its node starts when the node
    sequences of all paths are written one after the other (`process_graph` in
    src/main.rs, `parse_graph` in src/bin/main3.rs and src/bin/main3/main.rs), and a
    suffix-array value is mapped back to the step holding it (`extract_path` and
    `get_sampled_arrays` in src/main.rs, the print of the block loop in
    src/bin/main3.rs). The GFA parser itself is not modelled: a segment arrives as its
    name and sequence length, a path as its name and its comma-separated step list. */
module GraphLayout {
  import opened Wrappers
  import opened Text
  import opened GraphPositions
  import opened Predecessor
  import Tables
  import Runs

  /** A segment line reduced to what the layout needs: its numeric name and the
      length of its sequence. */
  datatype Segment = Segment(name: nat, length: nat)

  /** A path line: its name and the text of its step list ("12+,7-,..."). */
  datatype PathLine = PathLine(name: string, steps: string)

  /** The segment-length table: `len.insert(seg.name, seg.sequence.len())` for every
      segment in order. */
  function LengthTable(segments: seq<Segment>): (len: map<nat, nat>)
    ensures forall id :: id in len <==> exists k :: 0 <= k < |segments| && segments[k].name == id
  {
    var pairs := seq(|segments|, k requires 0 <= k < |segments| => (segments[k].name, segments[k].length));
    assert forall k :: 0 <= k < |segments| ==> pairs[k].0 == segments[k].name;
    Tables.Inserted(pairs)
  }

  // ---------------------------------------------------------------------------
  // Step lists

  /** Every piece parsed with `GraphPos::from_str`; `unwrap` panics on the first piece
      that does not parse, which is `None` here. An empty piece makes `from_str`
      underflow and panics too. */
  function ParsePieces(parts: seq<string>): (r: Option<seq<GraphPos>>)
    ensures r.Some? ==> |r.value| == |parts|
    decreases |parts|
  {
    if |parts| == 0 then Some([])
    else if |parts[0]| == 0 then None
    else
      var head := ParseGraphPos(parts[0]);
      var tail := ParsePieces(parts[1..]);
      if head.None? || tail.None? then None else Some([head.value] + tail.value)
  }

  /** The pieces parse exactly when every piece is non-empty and parses. */
  lemma {:induction false} ParsePiecesAll(parts: seq<string>)
    ensures ParsePieces(parts).Some? <==> forall k :: 0 <= k < |parts| ==> |parts[k]| > 0 && ParseGraphPos(parts[k]).Some?
    decreases |parts|
  {
    if |parts| > 0 && |parts[0]| > 0 {
      var tail := parts[1..];
      ParsePiecesAll(tail);
      assert forall k :: 0 < k < |parts| ==> parts[k] == tail[k - 1];
    }
  }

  /** Each parsed step is its piece parsed. */
  lemma {:induction false} ParsePiecesAt(parts: seq<string>)
    requires ParsePieces(parts).Some?
    ensures forall k :: 0 <= k < |parts| ==> |parts[k]| > 0 && ParseGraphPos(parts[k]) == Some(ParsePieces(parts).value[k])
    decreases |parts|
  {
    if |parts| > 0 {
      var tail := parts[1..];
      ParsePiecesAt(tail);
      assert forall k :: 0 < k < |parts| ==> parts[k] == tail[k - 1];
    }
  }

  /** `segment_names.split(',').map(|x| x.parse().unwrap()).collect()`. */
  function ParseSteps(text: string): (r: Option<seq<GraphPos>>)
    ensures r.Some? ==> |r.value| == |SplitOn(text, ',')| > 0
  {
    ParsePieces(SplitOn(text, ','))
  }

  /** The step list as a GFA file writes it: the steps' texts joined by ','. */
  function StepsText(steps: seq<GraphPos>): (s: string)
    requires |steps| > 0
  {
    JoinWith(seq(|steps|, k requires 0 <= k < |steps| => StepText(steps[k])), ",")
  }

  /** A step text has no ',' in it: it is decimal digits and a sign. */
  lemma StepTextNoComma(g: GraphPos)
    ensures ',' !in StepText(g)
  {
    NatToDecShape(g.id);
    var s := StepText(g);
    forall i | 0 <= i < |s| ensures s[i] != ',' {
      if i < |s| - 1 {
        assert s[i] == NatToDec(g.id)[i];
      }
    }
  }

  /** Writing a non-empty step list and parsing it back gives the same steps, each
      with offset 0. */
  lemma ParseStepsText(steps: seq<GraphPos>)
    requires |steps| > 0
    requires forall k :: 0 <= k < |steps| ==> steps[k].id <= USIZE_MAX
    ensures ParseSteps(StepsText(steps)).Some?
    ensures var r := ParseSteps(StepsText(steps)).value;
      |r| == |steps| && forall k :: 0 <= k < |steps| ==> r[k] == steps[k].(pos := 0)
  {
    var parts := seq(|steps|, k requires 0 <= k < |steps| => StepText(steps[k]));
    forall k | 0 <= k < |parts| ensures ',' !in parts[k] {
      StepTextNoComma(steps[k]);
    }
    SplitOnJoin(parts, ',');
    assert SplitOn(StepsText(steps), ',') == parts;
    forall k | 0 <= k < |parts| ensures |parts[k]| > 0 && ParseGraphPos(parts[k]) == Some(steps[k].(pos := 0)) {
      ParseStepText(steps[k]);
    }
    ParsePiecesAll(parts);
    ParsePiecesAt(parts);
  }

  /** Every path's step list parsed, in path order; `None` as soon as one fails. */
  function ParsePaths(paths: seq<string>): (r: Option<seq<seq<GraphPos>>>)
    ensures r.Some? ==> |r.value| == |paths|
    decreases |paths|
  {
    if |paths| == 0 then Some([])
    else
      var init := ParsePaths(paths[..|paths| - 1]);
      var last := ParseSteps(paths[|paths| - 1]);
      if init.None? || last.None? then None
      else Some(init.value + [last.value])
  }

  /** The k-th parsed path is the k-th step list parsed. */
  lemma {:induction false} ParsePathsAt(paths: seq<string>, k: nat)
    requires ParsePaths(paths).Some? && k < |paths|
    ensures ParseSteps(paths[k]) == Some(ParsePaths(paths).value[k])
    decreases |paths|
  {
    var init := paths[..|paths| - 1];
    if k < |init| {
      ParsePathsAt(init, k);
      assert init[k] == paths[k];
    }
  }

  /** Parsing stops at the first path that does not parse, and succeeds when every
      path parses. */
  lemma {:induction false} ParsePathsAll(paths: seq<string>)
    ensures ParsePaths(paths).Some? <==> forall k :: 0 <= k < |paths| ==> ParseSteps(paths[k]).Some?
    decreases |paths|
  {
    if |paths| > 0 {
      var init := paths[..|paths| - 1];
      ParsePathsAll(init);
      assert forall k :: 0 <= k < |init| ==> init[k] == paths[k];
    }
  }

  /** The step-list texts of the path lines. */
  function StepLists(paths: seq<PathLine>): (texts: seq<string>)
    ensures |texts| == |paths| && forall k :: 0 <= k < |paths| ==> texts[k] == paths[k].steps
  {
    seq(|paths|, k requires 0 <= k < |paths| => paths[k].steps)
  }

  /** The steps of all paths one after the other. */
  function Concat(pss: seq<seq<GraphPos>>): (r: seq<GraphPos>)
    decreases |pss|
  {
    if |pss| == 0 then [] else Concat(pss[..|pss| - 1]) + pss[|pss| - 1]
  }

  lemma ConcatSnoc(pss: seq<seq<GraphPos>>, ps: seq<GraphPos>)
    ensures Concat(pss + [ps]) == Concat(pss) + ps
  {
    assert (pss + [ps])[..|pss|] == pss;
  }

  // ---------------------------------------------------------------------------
  // Offsets

  /** Every step's node is in the length table (otherwise `get(&id).unwrap()` panics). */
  predicate Known(len: map<nat, nat>, steps: seq<GraphPos>)
  {
    forall k :: 0 <= k < |steps| ==> steps[k].id in len
  }

  /** The start offsets of the steps and, last, the total length: 0, then each entry
      the previous one plus the length of the node before it. */
  function Offsets(len: map<nat, nat>, steps: seq<GraphPos>): (r: seq<nat>)
    requires Known(len, steps)
    ensures |r| == |steps| + 1 && r[0] == 0
    ensures forall k {:trigger steps[k]} :: 0 <= k < |steps| ==> r[k + 1] == r[k] + len[steps[k].id]
    decreases |steps|
  {
    if |steps| == 0 then [0]
    else
      var init := steps[..|steps| - 1];
      var p := Offsets(len, init);
      assert forall k :: 0 <= k < |init| ==> init[k] == steps[k];
      p + [p[|init|] + len[steps[|steps| - 1].id]]
  }

  /** An offset is the sum of the lengths of the nodes before it: the offsets of a
      prefix of the steps are a prefix of the offsets. */
  lemma OffsetsPrefix(len: map<nat, nat>, a: seq<GraphPos>, b: seq<GraphPos>)
    requires Known(len, a + b)
    ensures Known(len, a) && Offsets(len, a) == Offsets(len, a + b)[..|a| + 1]
  {
    var ab := a + b;
    assert Known(len, a) by {
      forall k | 0 <= k < |a| ensures a[k].id in len {
        assert a[k] == ab[k];
      }
    }
    forall i | 0 <= i <= |a| ensures Offsets(len, a)[i] == Offsets(len, ab)[i] {
      assert a[..i] == ab[..i];
      OffsetsAgree(len, a, ab, i);
    }
  }

  /** Two step lists that agree on their first i steps agree on the first i + 1 offsets. */
  lemma {:induction false} OffsetsAgree(len: map<nat, nat>, a: seq<GraphPos>, c: seq<GraphPos>, i: nat)
    requires Known(len, a) && Known(len, c) && i <= |a| && i <= |c| && a[..i] == c[..i]
    ensures Offsets(len, a)[i] == Offsets(len, c)[i]
  {
    if i > 0 {
      assert a[..i - 1] == a[..i][..i - 1] == c[..i][..i - 1] == c[..i - 1];
      OffsetsAgree(len, a, c, i - 1);
      assert a[i - 1] == a[..i][i - 1] == c[..i][i - 1] == c[i - 1];
    }
  }

  /** Offsets never decrease, and grow strictly across a node of positive length. */
  lemma {:induction false} OffsetsAscending(len: map<nat, nat>, steps: seq<GraphPos>, i: nat, j: nat)
    requires Known(len, steps) && i <= j <= |steps|
    ensures Offsets(len, steps)[i] <= Offsets(len, steps)[j]
    ensures i < j && len[steps[i].id] > 0 ==> Offsets(len, steps)[i] < Offsets(len, steps)[j]
    decreases j - i
  {
    if i < j {
      OffsetsAscending(len, steps, i + 1, j);
      assert steps[i].id in len;
    }
  }

  /** Mapping a text position back to its step (the print of the block loop in
      src/bin/main3.rs, and `extract_path`): when every node has positive length and
      the position is before the end, argpred over the offsets finds the step whose
      node holds it, and the printed in-node offset is less than that node's length. */
  lemma LocateInNode(len: map<nat, nat>, steps: seq<GraphPos>, sa: nat)
    requires Known(len, steps)
    requires forall k :: 0 <= k < |steps| ==> len[steps[k].id] > 0
    requires sa < Offsets(len, steps)[|steps|]
    ensures exists k :: 0 <= k < |steps| + 1 && Offsets(len, steps)[k] <= sa
    ensures var o := Offsets(len, steps); var i := LastAtMost(o, sa);
      i < |steps| && o[i] <= sa < o[i + 1] && sa - o[i] < len[steps[i].id]
  {
    var o := Offsets(len, steps);
    LastAtMostLocates(o, sa);
    var i := LastAtMost(o, sa);
    if i == |steps| {
      assert false;
    }
  }

  // ---------------------------------------------------------------------------
  // Building the layout

  /** The steps of every path, in order: the first loop of `parse_graph`. */
  method CollectSteps(texts: seq<string>) returns (r: Option<seq<GraphPos>>)
    ensures r.Some? <==> ParsePaths(texts).Some?
    ensures r.Some? ==> r.value == Concat(ParsePaths(texts).value)
  {
    var result := [];
    ghost var pss := [];
    for k := 0 to |texts|
      invariant ParsePaths(texts[..k]) == Some(pss)
      invariant result == Concat(pss)
    {
      assert texts[..k + 1][..k] == texts[..k];
      var p := ParseSteps(texts[k]);
      if p.None? {
        ParseFailsAt(texts, k);
        return None;
      }
      ConcatSnoc(pss, p.value);
      pss := pss + [p.value];
      result := result + p.value;
    }
    assert texts[..|texts|] == texts;
    r := Some(result);
  }

  /** What `parse_graph` returns for the parsed paths `pss`: nothing when a path did
      not parse or a step names a segment without a length; otherwise the steps of all
      paths in order and, for each, its start offset (no total-length sentinel). */
  ghost predicate GraphParsed(len: map<nat, nat>, pss: Option<seq<seq<GraphPos>>>, r: Option<(seq<nat>, seq<GraphPos>)>)
  {
    (r.Some? <==> pss.Some? && Known(len, Concat(pss.value))) &&
    (r.Some? ==> r.value.1 == Concat(pss.value) && |r.value.0| == |r.value.1| &&
                 r.value.0 == Offsets(len, r.value.1)[..|r.value.1|])
  }

  /** `parse_graph` of src/bin/main3.rs and src/bin/main3/main.rs. A step that does
      not parse, or names a segment that has no length, panics (`None`). */
  method ParseGraph(segments: seq<Segment>, paths: seq<PathLine>) returns (r: Option<(seq<nat>, seq<GraphPos>)>)
    ensures GraphParsed(LengthTable(segments), ParsePaths(StepLists(paths)), r)
  {
    var len := LengthTable(segments);
    var steps := CollectSteps(StepLists(paths));
    if steps.None? {
      return None;
    }
    var st := steps.value;
    var ok, start, _, s := PlaceSteps(len, st, [], [], 0);
    if !ok {
      return None;
    }
    StartsOfAll(len, st, start, s);
    r := Some((start, st));
  }

  /** The offsets the step loop pushes are the running sums without the last one. */
  lemma StartsOfAll(len: map<nat, nat>, st: seq<GraphPos>, start: seq<nat>, s: nat)
    requires Known(len, st) && start + [s] == Offsets(len, [] + st)
    ensures |start| == |st| && start == Offsets(len, st)[..|st|]
  {
    assert [] + st == st;
    assert start == (start + [s])[..|st|];
  }

  /** For every path, the index of its first step among the steps of all paths. */
  ghost function PathOffsets(pss: seq<seq<GraphPos>>): (r: seq<nat>)
    ensures |r| == |pss| && forall j :: 0 <= j < |r| ==> r[j] <= |Concat(pss)|
    decreases |pss|
  {
    if |pss| == 0 then [] else PathOffsets(pss[..|pss| - 1]) + [|Concat(pss[..|pss| - 1])|]
  }

  /** A path's first step comes after the steps of all the paths before it. */
  lemma {:induction false} PathOffsetsCount(pss: seq<seq<GraphPos>>, j: nat)
    requires j < |pss|
    ensures PathOffsets(pss)[j] == |Concat(pss[..j])|
    decreases |pss|
  {
    var init := pss[..|pss| - 1];
    if j < |init| {
      PathOffsetsCount(init, j);
      assert init[..j] == pss[..j];
    } else {
      assert init == pss[..j];
    }
  }

  /** The steps of the first paths are a prefix of the steps of all paths. */
  lemma {:induction false} ConcatPrefix(pss: seq<seq<GraphPos>>, m: nat)
    requires m <= |pss|
    ensures |Concat(pss[..m])| <= |Concat(pss)| && Concat(pss)[..|Concat(pss[..m])|] == Concat(pss[..m])
    decreases |pss|
  {
    if m < |pss| {
      var init := pss[..|pss| - 1];
      ConcatPrefix(init, m);
      assert init[..m] == pss[..m];
      var c := Concat(pss[..m]);
      assert Concat(pss)[..|c|] == Concat(init)[..|c|];
    } else {
      assert pss[..m] == pss;
    }
  }

  /** The layout `process_graph` builds from the parsed step lists `pss` of the
      `paths`: for every path the offset at which its first step starts and its name;
      for every step its start offset, with the total length last, and its node.
      Nothing when a step names a segment that has no length. */
  ghost function Layout(len: map<nat, nat>, paths: seq<PathLine>, pss: seq<seq<GraphPos>>)
    : (r: Option<(seq<nat>, seq<string>, seq<nat>, seq<GraphPos>)>)
    requires |pss| == |paths|
    ensures r.Some? <==> Known(len, Concat(pss))
    ensures r.Some? ==> |r.value.0| == |r.value.1| == |paths| &&
                        Known(len, r.value.3) && r.value.2 == Offsets(len, r.value.3)
  {
    if !Known(len, Concat(pss)) then None
    else
      var steps := Concat(pss);
      var offsets := Offsets(len, steps);
      var counts := PathOffsets(pss);
      Some((seq(|paths|, j requires 0 <= j < |paths| => offsets[counts[j]]),
            seq(|paths|, j requires 0 <= j < |paths| => paths[j].name), offsets, steps))
  }

  /** The start recorded for a path is the offset of its first step in the list of
      all steps, that step is the first one the path names, and the name recorded
      is the path's. */
  lemma LayoutFirstStep(len: map<nat, nat>, paths: seq<PathLine>, pss: seq<seq<GraphPos>>, j: nat)
    requires |pss| == |paths| && Layout(len, paths, pss).Some? && j < |paths| && |pss[j]| > 0
    ensures var r := Layout(len, paths, pss).value;
      var c := |Concat(pss[..j])|;
      c < |r.3| && r.3[c] == pss[j][0] && r.0[j] == r.2[c] && r.1[j] == paths[j].name
  {
    PathOffsetsCount(pss, j);
    ConcatPrefix(pss, j + 1);
    ConcatSnoc(pss[..j], pss[j]);
    assert pss[..j + 1] == pss[..j] + [pss[j]];
  }

  /** `parse_graph` (src/bin/main3.rs) and `process_graph` (src/main.rs) agree: both
      fail on the same graphs, list the same steps, and the start offsets of the former
      are those of the latter without the total-length sentinel. */
  lemma ParseProcessAgree(len: map<nat, nat>, paths: seq<PathLine>, pss: seq<seq<GraphPos>>, r: Option<(seq<nat>, seq<GraphPos>)>)
    requires |pss| == |paths| && GraphParsed(len, Some(pss), r)
    ensures Layout(len, paths, pss).Some? <==> r.Some?
    ensures r.Some? ==> var l := Layout(len, paths, pss).value;
      l.3 == r.value.1 && l.2 == r.value.0 + [l.2[|r.value.1|]]
  {
    if r.Some? {
      var l := Layout(len, paths, pss).value;
      assert l.2 == l.2[..|r.value.1|] + [l.2[|r.value.1|]];
    }
  }

  /** The layout of no paths: no path starts, and the single offset 0. */
  lemma LayoutEmpty(len: map<nat, nat>, paths: seq<PathLine>)
    requires |paths| == 0
    ensures Layout(len, paths, []) == Some(([], [], [0], []))
  {
    assert Concat([]) == [];
  }

  /** `process_graph` of src/main.rs: for every path its start offset and name are
      pushed, then every step with the running offset; the total length is pushed
      last as a sentinel. A step that does not parse, or names a segment without a
      length, panics (`None`). */
  method ProcessGraph(segments: seq<Segment>, paths: seq<PathLine>)
    returns (r: Option<(seq<nat>, seq<string>, seq<nat>, seq<GraphPos>)>)
    ensures ParsePaths(StepLists(paths)).None? ==> r.None?
    ensures ParsePaths(StepLists(paths)).Some? ==> r == Layout(LengthTable(segments), paths, ParsePaths(StepLists(paths)).value)
  {
    var len := LengthTable(segments);
    var pathStarts: seq<nat>, pathNames: seq<string>, nodeStarts: seq<nat>, nodeNames: seq<GraphPos> := [], [], [], [];
    var start: nat := 0;
    ghost var pss: seq<seq<GraphPos>> := [];
    LayoutEmpty(len, paths[..0]);
    assert StepLists(paths[..0]) == [] && nodeStarts + [start] == [0];
    for k := 0 to |paths|
      invariant ParsePaths(StepLists(paths[..k])) == Some(pss)
      invariant Layout(len, paths[..k], pss) == Some((pathStarts, pathNames, nodeStarts + [start], nodeNames))
    {
      var p := ParseSteps(paths[k].steps);
      if p.None? {
        ParseFailsAt(StepLists(paths), k);
        return None;
      }
      var ok, nodeStarts', nodeNames', start' := PlaceSteps(len, p.value, nodeStarts, nodeNames, start);
      if !ok {
        LayoutUnknown(len, paths, k, pss, p.value);
        return None;
      }
      SnocParsed(paths, k, pss, p.value);
      LayoutSnoc(len, paths, k, pss, p.value, pathStarts, pathNames, nodeStarts, nodeNames, start, nodeStarts', nodeNames', start');
      pathStarts := pathStarts + [start];
      pathNames := pathNames + [paths[k].name];
      pss := pss + [p.value];
      nodeStarts, nodeNames, start := nodeStarts', nodeNames', start';
    }
    assert paths[..|paths|] == paths;
    r := Some((pathStarts, pathNames, nodeStarts + [start], nodeNames));
  }

  /** One step list that does not parse makes the whole parse fail. */
  lemma ParseFailsAt(texts: seq<string>, k: nat)
    requires k < |texts| && ParseSteps(texts[k]).None?
    ensures ParsePaths(texts).None?
  {
    ParsePathsAll(texts);
  }

  /** A path naming a segment without a length makes `process_graph` panic, whatever
      the paths after it. */
  lemma LayoutUnknown(len: map<nat, nat>, paths: seq<PathLine>, k: nat, pss: seq<seq<GraphPos>>, p: seq<GraphPos>)
    requires k < |paths| && ParsePaths(StepLists(paths[..k])) == Some(pss)
    requires ParseSteps(paths[k].steps) == Some(p) && !Known(len, p)
    ensures ParsePaths(StepLists(paths)).Some? ==> !Known(len, Concat(ParsePaths(StepLists(paths)).value))
  {
    var texts := StepLists(paths);
    SnocParsed(paths, k, pss, p);
    assert StepLists(paths[..k + 1]) == texts[..k + 1];
    KnownConcat(len, pss, p);
    UnknownPersists(len, texts, k + 1);
  }

  /** Parsing one more path appends its steps. */
  lemma SnocParsed(paths: seq<PathLine>, k: nat, pss: seq<seq<GraphPos>>, p: seq<GraphPos>)
    requires k < |paths| && ParsePaths(StepLists(paths[..k])) == Some(pss)
    requires ParseSteps(paths[k].steps) == Some(p)
    ensures ParsePaths(StepLists(paths[..k + 1])) == Some(pss + [p])
  {
    var ta, tb := StepLists(paths[..k]), StepLists(paths[..k + 1]);
    forall i | 0 <= i < k + 1 ensures tb[i] == (ta + [paths[k].steps])[i] {
      if i < k {
        assert tb[i] == paths[i].steps == ta[i];
      }
    }
    assert tb == ta + [paths[k].steps];
    ParsePathsSnoc(ta, paths[k].steps, pss, p);
  }

  /** Parsing one more step list appends its steps. */
  lemma ParsePathsSnoc(texts: seq<string>, t: string, pss: seq<seq<GraphPos>>, p: seq<GraphPos>)
    requires ParsePaths(texts) == Some(pss) && ParseSteps(t) == Some(p)
    ensures ParsePaths(texts + [t]) == Some(pss + [p])
  {
    assert (texts + [t])[..|texts|] == texts;
  }

  /** One path of `process_graph`: its start and name are pushed, then its steps. */
  lemma LayoutSnoc(len: map<nat, nat>, paths: seq<PathLine>, k: nat, pss: seq<seq<GraphPos>>, p: seq<GraphPos>,
                   pathStarts: seq<nat>, pathNames: seq<string>, nodeStarts: seq<nat>, nodeNames: seq<GraphPos>, start: nat,
                   nodeStarts': seq<nat>, nodeNames': seq<GraphPos>, start': nat)
    requires k < |paths| && |pss| == k
    requires Layout(len, paths[..k], pss) == Some((pathStarts, pathNames, nodeStarts + [start], nodeNames))
    requires nodeNames' == nodeNames + p && Known(len, nodeNames') && nodeStarts' + [start'] == Offsets(len, nodeNames')
    requires nodeStarts + [start] == (nodeStarts' + [start'])[..|nodeStarts| + 1]
    ensures Layout(len, paths[..k + 1], pss + [p]) == Some((pathStarts + [start], pathNames + [paths[k].name], nodeStarts' + [start'], nodeNames'))
  {
    ConcatSnoc(pss, p);
    assert (pss + [p])[..k] == pss;
    SnocStarts(nodeStarts + [start], nodeStarts' + [start'], PathOffsets(pss), |nodeNames|, pathStarts);
    SnocNames(paths, k, pathNames);
  }

  /** The start offsets of the paths after one more path: the earlier offsets are
      untouched by the steps pushed after them. */
  lemma SnocStarts(offsets: seq<nat>, offsets': seq<nat>, counts: seq<nat>, n: nat, starts: seq<nat>)
    requires |offsets| == n + 1 <= |offsets'| && offsets == offsets'[..n + 1] && |starts| == |counts|
    requires forall j :: 0 <= j < |counts| ==> counts[j] <= n && starts[j] == offsets[counts[j]]
    ensures starts + [offsets[n]] == seq(|counts| + 1, j requires 0 <= j < |counts| + 1 => offsets'[(counts + [n])[j]])
  {
  }

  /** The names of the paths after one more path. */
  lemma SnocNames(paths: seq<PathLine>, k: nat, names: seq<string>)
    requires k < |paths| && names == seq(k, j requires 0 <= j < k => paths[j].name)
    ensures names + [paths[k].name] == seq(k + 1, j requires 0 <= j < k + 1 => paths[..k + 1][j].name)
  {
  }

  /** Once the paths read so far name an unknown node, so do all the paths. */
  lemma {:induction false} UnknownPersists(len: map<nat, nat>, texts: seq<string>, m: nat)
    requires m <= |texts| && ParsePaths(texts[..m]).Some?
    requires !Known(len, Concat(ParsePaths(texts[..m]).value))
    ensures ParsePaths(texts).Some? ==> !Known(len, Concat(ParsePaths(texts).value))
    decreases |texts|
  {
    if m == |texts| {
      assert texts[..m] == texts;
    } else {
      var init := texts[..|texts| - 1];
      assert init[..m] == texts[..m];
      UnknownPersists(len, init, m);
      var whole := ParsePaths(texts);
      if whole.Some? {
        var prev := ParsePaths(init).value;
        var last := ParseSteps(texts[|texts| - 1]).value;
        assert whole.value == prev + [last];
        ConcatSnoc(prev, last);
        var i :| 0 <= i < |Concat(prev)| && Concat(prev)[i].id !in len;
        assert Concat(whole.value)[i] == Concat(prev)[i];
      }
    }
  }

  /** A step list that adds an unknown node makes the whole list unknown. */
  lemma KnownConcat(len: map<nat, nat>, pss: seq<seq<GraphPos>>, ps: seq<GraphPos>)
    requires !Known(len, ps)
    ensures !Known(len, Concat(pss + [ps]))
  {
    ConcatSnoc(pss, ps);
    var k :| 0 <= k < |ps| && ps[k].id !in len;
    assert (Concat(pss) + ps)[|Concat(pss)| + k] == ps[k];
  }

  /** The inner loop of `process_graph`: every step of one path is pushed with the
      running offset, which then grows by the node's length. */
  method PlaceSteps(len: map<nat, nat>, steps: seq<GraphPos>, nodeStarts: seq<nat>, nodeNames: seq<GraphPos>, start: nat)
    returns (ok: bool, nodeStarts': seq<nat>, nodeNames': seq<GraphPos>, start': nat)
    requires Known(len, nodeNames) && nodeStarts + [start] == Offsets(len, nodeNames)
    ensures ok <==> Known(len, steps)
    ensures ok ==> nodeNames' == nodeNames + steps && Known(len, nodeNames') &&
                   nodeStarts' + [start'] == Offsets(len, nodeNames') &&
                   nodeStarts + [start] == (nodeStarts' + [start'])[..|nodeStarts| + 1]
  {
    nodeStarts', nodeNames', start' := nodeStarts, nodeNames, start;
    for k := 0 to |steps|
      invariant Known(len, steps[..k])
      invariant nodeNames' == nodeNames + steps[..k] && Known(len, nodeNames')
      invariant nodeStarts' + [start'] == Offsets(len, nodeNames')
    {
      if steps[k].id !in len {
        return false, nodeStarts', nodeNames', start';
      }
      assert steps[..k + 1] == steps[..k] + [steps[k]];
      var grown := nodeNames' + [steps[k]];
      assert grown[..|grown| - 1] == nodeNames';
      nodeStarts' := nodeStarts' + [start'];
      start' := start' + len[steps[k].id];
      nodeNames' := grown;
    }
    assert steps[..|steps|] == steps;
    OffsetsPrefix(len, nodeNames, steps);
    ok := true;
  }

  // ---------------------------------------------------------------------------
  // Positions back to paths

  /** The first index at or after `from` whose offset reaches `bound`. */
  function CoverEnd(starts: seq<nat>, from: nat, bound: nat): (e: nat)
    requires from < |starts| && bound <= starts[|starts| - 1]
    ensures from <= e < |starts| && starts[e] >= bound
    ensures forall k :: from <= k < e ==> starts[k] < bound
    decreases |starts| - from
  {
    if starts[from] >= bound then from else CoverEnd(starts, from + 1, bound)
  }

  /** The walk text of the steps a <= k < b: each step's `to_path`, concatenated. */
  function PathText(names: seq<GraphPos>, a: nat, b: nat): (s: string)
    requires a <= b <= |names|
    decreases b - a
  {
    if a == b then "" else ToPath(names[a]) + PathText(names, a + 1, b)
  }

  /** Every step listed contributes its own walk text: the text is nonempty exactly
      when some step is listed, and starts with that step's direction sign. */
  lemma PathTextShape(names: seq<GraphPos>, a: nat, b: nat)
    requires a <= b <= |names|
    ensures (|PathText(names, a, b)| > 0) <==> a < b
    ensures a < b ==> PathText(names, a, b)[..|ToPath(names[a])|] == ToPath(names[a])
    ensures a < b ==> |PathText(names, a, b)| >= 2 * (b - a)
    decreases b - a
  {
    if a < b {
      PathTextShape(names, a + 1, b);
    }
  }

  lemma PathTextSnoc(names: seq<GraphPos>, a: nat, b: nat)
    requires a <= b < |names|
    ensures PathText(names, a, b + 1) == PathText(names, a, b) + ToPath(names[b])
    decreases b - a
  {
    if a < b {
      PathTextSnoc(names, a + 1, b);
    }
  }

  /** `extract_path`: the node holding `sa_value` is found with argpred; the path
      lists that node and every following one whose start is before the end of the
      match; `plen` runs from the first listed node's start to the end of the last,
      and `pstart`/`pend` are the match's bounds on that path. The offsets must end
      with the total length, at or after the end of the match, or the loop reads past
      the node names. */
  method ExtractPath(saValue: nat, seqLen: nat, nodeStarts: seq<nat>, nodeNames: seq<GraphPos>)
    returns (path: string, plen: nat, pstart: nat, pend: nat)
    requires |nodeStarts| == |nodeNames| + 1
    requires exists k :: 0 <= k < |nodeStarts| && nodeStarts[k] <= saValue
    requires saValue + seqLen <= nodeStarts[|nodeStarts| - 1]
    ensures var first := LastAtMost(nodeStarts, saValue);
      var last := CoverEnd(nodeStarts, first, saValue + seqLen);
      pstart == saValue - nodeStarts[first] && pend == pstart + seqLen &&
      path == PathText(nodeNames, first, last) &&
      plen == nodeStarts[last] - nodeStarts[first]
    ensures pstart <= pend <= plen
  {
    var i := ArgPred(nodeStarts, saValue);
    var start := nodeStarts[i];
    pstart := saValue - start;
    pend := pstart + seqLen;
    var j;
    path, j := WalkNodes(nodeStarts, nodeNames, i, start + pend);
    plen := nodeStarts[j] - start;
  }

  /** The loop of `extract_path`: from node `first`, every node that starts before
      `bound` is written as a walk step. */
  method WalkNodes(nodeStarts: seq<nat>, nodeNames: seq<GraphPos>, first: nat, bound: nat) returns (path: string, i: nat)
    requires |nodeStarts| == |nodeNames| + 1 && first < |nodeStarts| && bound <= nodeStarts[|nodeStarts| - 1]
    ensures i == CoverEnd(nodeStarts, first, bound) && path == PathText(nodeNames, first, i)
  {
    i := first;
    path := "";
    ghost var last := CoverEnd(nodeStarts, first, bound);
    while nodeStarts[i] < bound
      invariant first <= i <= last
      invariant path == PathText(nodeNames, first, i)
      decreases last - i
    {
      PathTextSnoc(nodeNames, first, i);
      path := path + ToPath(nodeNames[i]);
      i := i + 1;
    }
  }

  /** The test of `extract_path`: a match of length 3 at position 5 of a single node of
      length 10 is the walk ">0" of length 10, from 5 to 8. */
  lemma ExtractPathExample()
    ensures var ns := [0, 10];
      ns[0] <= 5 && LastAtMost(ns, 5) == 0 && CoverEnd(ns, 0, 8) == 1 &&
      PathText([DefaultGraphPos()], 0, 1) == ">0"
  {
    var ns: seq<nat> := [0, 10];
    assert ns[1] > 5;
    assert NatToDec(0) == "0";
  }

  // ---------------------------------------------------------------------------
  // The sampled tag array of src/main.rs

  /** `node_starts.argpred(sa)` is defined and names a step. */
  ghost predicate Locatable(nodeStarts: seq<nat>, nodeNames: seq<GraphPos>, sa: nat)
  {
    (exists k :: 0 <= k < |nodeStarts| && nodeStarts[k] <= sa) && LastAtMost(nodeStarts, sa) < |nodeNames|
  }

  /** The tag of a suffix-array value: the node of the step holding it, with the
      offset inside that node. */
  ghost function Locate(nodeStarts: seq<nat>, nodeNames: seq<GraphPos>, sa: nat): (g: GraphPos)
    requires Locatable(nodeStarts, nodeNames, sa)
    ensures exists i :: 0 <= i < |nodeNames| && i < |nodeStarts| && nodeStarts[i] <= sa &&
                        g == nodeNames[i].(pos := sa - nodeStarts[i])
  {
    var i := LastAtMost(nodeStarts, sa);
    nodeNames[i].(pos := sa - nodeStarts[i])
  }

  /** The tags of a sequence of suffix-array values. */
  ghost function LocateAll(nodeStarts: seq<nat>, nodeNames: seq<GraphPos>, sas: seq<nat>): (tags: seq<GraphPos>)
    requires forall j :: 0 <= j < |sas| ==> Locatable(nodeStarts, nodeNames, sas[j])
    ensures |tags| == |sas|
  {
    seq(|sas|, j requires 0 <= j < |sas| => Locate(nodeStarts, nodeNames, sas[j]))
  }

  /** `GraphPos{pos: sa - node_starts[i], ..node_names[i]}` with i = argpred(sa). */
  method LocateTag(nodeStarts: seq<nat>, nodeNames: seq<GraphPos>, sa: nat) returns (g: GraphPos)
    requires Locatable(nodeStarts, nodeNames, sa)
    ensures g == Locate(nodeStarts, nodeNames, sa)
  {
    var i := ArgPred(nodeStarts, sa);
    g := nodeNames[i].(pos := sa - nodeStarts[i]);
  }

  /** `get_sampled_arrays` of src/main.rs over the suffix-array values the prefix-free
      iterator yields: the first and last (sa, tag) of every maximal run of equal tags.
      The iterator must yield at least one value (`next().unwrap()`). */
  method SampledArrays(sas: seq<nat>, nodeStarts: seq<nat>, nodeNames: seq<GraphPos>)
    returns (sampledSuf: seq<nat>, sampledTag: seq<GraphPos>)
    requires |sas| > 0
    requires forall j :: 0 <= j < |sas| ==> Locatable(nodeStarts, nodeNames, sas[j])
    ensures (sampledSuf, sampledTag) == Runs.Sample(sas, LocateAll(nodeStarts, nodeNames, sas))
  {
    ghost var tags := LocateAll(nodeStarts, nodeNames, sas);
    var gp := LocateTag(nodeStarts, nodeNames, sas[0]);
    assert tags[0] == gp;
    var oldGp, oldSa := gp, sas[0];
    Runs.SampleFirst(sas, tags);
    sampledTag, sampledSuf := [gp], [sas[0]];
    for i := 1 to |sas|
      invariant oldSa == sas[i - 1] && oldGp == tags[i - 1]
      invariant (sampledSuf + [oldSa], sampledTag + [oldGp]) == Runs.Sample(sas[..i], tags[..i])
    {
      var sa := sas[i];
      gp := LocateTag(nodeStarts, nodeNames, sa);
      assert gp == tags[i];
      Runs.SampleStep(sas, tags, i, sampledSuf, sampledTag);
      if oldGp != gp {
        sampledTag := sampledTag + [oldGp];
        sampledSuf := sampledSuf + [oldSa];
        sampledTag := sampledTag + [gp];
        sampledSuf := sampledSuf + [sa];
        oldGp := gp;
      }
      oldSa := sa;
    }
    assert sas[..|sas|] == sas && tags[..|tags|] == tags;
    sampledTag := sampledTag + [oldGp];
    sampledSuf := sampledSuf + [oldSa];
  }
}
