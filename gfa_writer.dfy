/** The GFA output of src/pf.rs. `print_gfa` writes the prefix-free graph as GFA 1.1:
    the header line, one S line per segment, and for each path a P line followed by
    one L line per pair of consecutive steps, every step on the forward strand and
    every link overlapping by the trigger length k. `into_path_step` reads one step
    word back. Lines are given without their newline; a panic is `None`. */
module GfaWriter {
  import opened Wrappers
  import opened Text
  import GraphPositions
  import GraphLayout

  const HEADER: string := "H\tVN:Z:1.1"

  function SegmentLine(id: nat, sequence: string): string
  {
    "S\t" + NatToDec(id) + "\t" + sequence
  }

  /** A path step as `print_gfa` writes it: the id, then "+". */
  function StepWord(id: nat): string
  {
    NatToDec(id) + "+"
  }

  function StepWords(path: seq<nat>): (r: seq<string>)
    ensures |r| == |path|
  {
    seq(|path|, q requires 0 <= q < |path| => StepWord(path[q]))
  }

  /** The step list of a P line: the step words joined by ','. */
  function StepsField(path: seq<nat>): string
  {
    JoinWith(StepWords(path), ",")
  }

  function PathLine(i: nat, path: seq<nat>): string
  {
    "P\t" + NatToDec(i) + "\t" + StepsField(path) + "\t*"
  }

  function LinkLine(a: nat, b: nat, k: nat): string
  {
    "L\t" + NatToDec(a) + "\t+\t" + NatToDec(b) + "\t+\t" + NatToDec(k) + "M"
  }

  /** The S lines of the first n segments. */
  function SegmentLines(segments: seq<string>, n: nat): (r: seq<string>)
    requires n <= |segments|
    ensures |r| == n
  {
    if n == 0 then [] else SegmentLines(segments, n - 1) + [SegmentLine(n - 1, segments[n - 1])]
  }

  /** The L lines between steps j and j+1 of a path, for j < n. */
  function LinkLines(path: seq<nat>, k: nat, n: nat): (r: seq<string>)
    requires n < |path|
    ensures |r| == n
  {
    if n == 0 then [] else LinkLines(path, k, n - 1) + [LinkLine(path[n - 1], path[n], k)]
  }

  /** The P line of path i and its L lines; `None` for an empty path, where
      `path.len() - 1` underflows. */
  function PathBlock(i: nat, path: seq<nat>, k: nat): Option<seq<string>>
  {
    if |path| == 0 then None else Some([PathLine(i, path)] + LinkLines(path, k, |path| - 1))
  }

  /** The lines of the first n paths. */
  function PathBlocks(paths: seq<seq<nat>>, k: nat, n: nat): Option<seq<string>>
    requires n <= |paths|
  {
    if n == 0 then Some([])
    else
      var before := PathBlocks(paths, k, n - 1);
      var block := PathBlock(n - 1, paths[n - 1], k);
      if before.None? || block.None? then None else Some(before.value + block.value)
  }

  /** Everything `print_gfa` writes. */
  function Gfa(segments: seq<string>, paths: seq<seq<nat>>, k: nat): Option<seq<string>>
  {
    var blocks := PathBlocks(paths, k, |paths|);
    if blocks.None? then None else Some([HEADER] + SegmentLines(segments, |segments|) + blocks.value)
  }

  /** `print_gfa`, writing line by line. */
  method PrintGfa(segments: seq<string>, paths: seq<seq<nat>>, k: nat) returns (out: Option<seq<string>>)
    ensures out == Gfa(segments, paths, k)
  {
    var head := WriteSegments(segments);
    var lines := head;
    ghost var done: seq<string> := [];
    for i := 0 to |paths|
      invariant PathBlocks(paths, k, i) == Some(done) && lines == head + done
    {
      var block := WritePath(i, paths[i], k);
      if block.None? {
        PathBlocksFail(paths, k, i + 1, |paths|);
        return None;
      }
      Associative(head, done, block.value);
      lines := lines + block.value;
      done := done + block.value;
    }
    return Some(lines);
  }

  lemma Associative(a: seq<string>, b: seq<string>, c: seq<string>)
    ensures a + b + c == a + (b + c)
  {
  }

  /** The header and the S lines. */
  method WriteSegments(segments: seq<string>) returns (lines: seq<string>)
    ensures lines == [HEADER] + SegmentLines(segments, |segments|)
  {
    lines := [HEADER];
    for id := 0 to |segments|
      invariant lines == [HEADER] + SegmentLines(segments, id)
    {
      lines := lines + [SegmentLine(id, segments[id])];
    }
  }

  /** The P line of one path and its L lines. */
  method WritePath(i: nat, path: seq<nat>, k: nat) returns (block: Option<seq<string>>)
    ensures block == PathBlock(i, path, k)
  {
    var lines := [PathLine(i, path)];
    if |path| == 0 {
      return None;
    }
    for j := 0 to |path| - 1
      invariant lines == [PathLine(i, path)] + LinkLines(path, k, j)
    {
      lines := lines + [LinkLine(path[j], path[j + 1], k)];
    }
    return Some(lines);
  }

  /** Once a path is empty, nothing is written. */
  lemma {:induction false} PathBlocksFail(paths: seq<seq<nat>>, k: nat, n: nat, m: nat)
    requires 0 < n <= m <= |paths| && paths[n - 1] == []
    ensures PathBlocks(paths, k, m).None?
    decreases m
  {
    if m > n {
      PathBlocksFail(paths, k, n, m - 1);
    }
  }

  // ---------------------------------------------------------------------------
  // What the output holds

  function TotalSteps(paths: seq<seq<nat>>, n: nat): nat
    requires n <= |paths|
  {
    if n == 0 then 0 else TotalSteps(paths, n - 1) + |paths[n - 1]|
  }

  /** The output exists exactly when no path is empty; then it is the header, the S
      line of each segment at line 1 + id, and one P or L line per step of each
      path: a path of s steps has its P line and s - 1 L lines. */
  lemma {:induction false} PathBlocksShape(paths: seq<seq<nat>>, k: nat, n: nat)
    requires n <= |paths|
    ensures PathBlocks(paths, k, n).Some? <==> forall p :: 0 <= p < n ==> |paths[p]| > 0
    ensures PathBlocks(paths, k, n).Some? ==> |PathBlocks(paths, k, n).value| == TotalSteps(paths, n)
    decreases n
  {
    if n > 0 {
      PathBlocksShape(paths, k, n - 1);
      var before := PathBlocks(paths, k, n - 1);
      var block := PathBlock(n - 1, paths[n - 1], k);
      assert PathBlocks(paths, k, n) == if before.None? || block.None? then None else Some(before.value + block.value);
      assert block.Some? <==> |paths[n - 1]| > 0;
      if PathBlocks(paths, k, n).Some? {
        assert |block.value| == |paths[n - 1]|;
        assert TotalSteps(paths, n) == TotalSteps(paths, n - 1) + |paths[n - 1]|;
      } else if before.Some? {
        assert |paths[n - 1]| == 0;
      } else {
        var p :| 0 <= p < n - 1 && |paths[p]| == 0;
        assert !(forall p :: 0 <= p < n ==> |paths[p]| > 0);
      }
    }
  }

  lemma {:induction false} SegmentLinesAt(segments: seq<string>, n: nat, id: nat)
    requires id < n <= |segments|
    ensures SegmentLines(segments, n)[id] == SegmentLine(id, segments[id])
    decreases n
  {
    if id < n - 1 {
      SegmentLinesAt(segments, n - 1, id);
    }
  }

  lemma GfaShape(segments: seq<string>, paths: seq<seq<nat>>, k: nat)
    ensures Gfa(segments, paths, k).Some? <==> forall p :: 0 <= p < |paths| ==> |paths[p]| > 0
    ensures Gfa(segments, paths, k).Some? ==>
      var out := Gfa(segments, paths, k).value;
      |out| == 1 + |segments| + TotalSteps(paths, |paths|) && out[0] == HEADER
      && forall id :: 0 <= id < |segments| ==> out[1 + id] == SegmentLine(id, segments[id])
  {
    PathBlocksShape(paths, k, |paths|);
    if Gfa(segments, paths, k).Some? {
      var out := Gfa(segments, paths, k).value;
      forall id | 0 <= id < |segments| ensures out[1 + id] == SegmentLine(id, segments[id]) {
        SegmentLinesAt(segments, |segments|, id);
      }
    }
  }

  /** The L line after step j of a path links step j to step j + 1. */
  lemma {:induction false} LinkLinesAt(path: seq<nat>, k: nat, n: nat, j: nat)
    requires j < n < |path|
    ensures LinkLines(path, k, n)[j] == LinkLine(path[j], path[j + 1], k)
    decreases n
  {
    if j < n - 1 {
      LinkLinesAt(path, k, n - 1, j);
    }
  }

  lemma PathBlockLinks(i: nat, path: seq<nat>, k: nat)
    requires |path| > 0
    ensures var b := PathBlock(i, path, k).value;
      |b| == |path| && b[0] == PathLine(i, path)
      && forall j :: 0 <= j < |path| - 1 ==> b[1 + j] == LinkLine(path[j], path[j + 1], k)
  {
    forall j | 0 <= j < |path| - 1 ensures PathBlock(i, path, k).value[1 + j] == LinkLine(path[j], path[j + 1], k) {
      LinkLinesAt(path, k, |path| - 1, j);
    }
  }

  // ---------------------------------------------------------------------------
  // Reading the steps back

  /** A step word is the text `Display` gives a forward step of offset 0. */
  lemma StepWordIsStepText(id: nat)
    ensures StepWord(id) == GraphPositions.StepText(GraphPositions.GraphPos(id, GraphPositions.Forward, 0))
  {
  }

  /** The steps field of a P line is read back by `parse_graph` as the same ids, all
      forward, at offset 0. */
  lemma StepsFieldParses(path: seq<nat>)
    requires |path| > 0 && forall q :: 0 <= q < |path| ==> path[q] <= USIZE_MAX
    ensures GraphLayout.ParseSteps(StepsField(path)) ==
      Some(seq(|path|, q requires 0 <= q < |path| => GraphPositions.GraphPos(path[q], GraphPositions.Forward, 0)))
  {
    var gs := seq(|path|, q requires 0 <= q < |path| => GraphPositions.GraphPos(path[q], GraphPositions.Forward, 0));
    assert StepWords(path) == seq(|gs|, q requires 0 <= q < |gs| => GraphPositions.StepText(gs[q]));
    assert StepsField(path) == GraphLayout.StepsText(gs);
    GraphLayout.ParseStepsText(gs);
    var r := GraphLayout.ParseSteps(StepsField(path)).value;
    assert forall q :: 0 <= q < |gs| ==> r[q] == gs[q];
    assert r == gs;
  }

  /** `into_path_step`: all but the last byte as a decimal id, and the last byte;
      `None` for an empty word or an id that does not parse (both panic). */
  function IntoPathStep(step: string): (r: Option<(nat, char)>)
    ensures r.Some? <==> |step| > 0 && ParseUsize(step[..|step| - 1]).Some?
  {
    if |step| == 0 then None
    else
      var id := ParseUsize(step[..|step| - 1]);
      if id.None? then None else Some((id.value, step[|step| - 1]))
  }

  /** A written step word is read back as its id and '+'. */
  lemma IntoPathStepOfWord(id: nat)
    requires id <= USIZE_MAX
    ensures IntoPathStep(StepWord(id)) == Some((id, '+'))
  {
    var w := StepWord(id);
    assert w[..|w| - 1] == NatToDec(id);
    ParseUsizeOfDec(id);
  }

  /** The test of src/pf.rs: "2+" gives (2, '+'). */
  lemma IntoPathStepExample()
    ensures IntoPathStep("2+") == Some((2, '+'))
  {
    IntoPathStepOfWord(2);
    assert StepWord(2) == "2+";
  }
}
