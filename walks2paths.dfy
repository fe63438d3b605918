/** scripts/walks2paths.py: rewrites the W (walk) lines of a GFA 1.1 file into P
    (path) lines and echoes the header, segment and link lines. A walk writes each
    step as '>' or '<' followed by the node id (`to_path` of src/gp.rs); a path
    writes the id followed by '+' or '-'. */
module WalksToPaths {
  import opened Wrappers
  import opened Text
  import opened GraphPositions

  // ---------------------------------------------------------------------------
  // Steps

  /** `to_pathnode`: ">n" becomes "n+", and any other first character "n-". */
  function ToPathNode(w: string): (s: string)
    requires |w| > 0
  {
    w[1..] + (if w[0] == '>' then "+" else "-")
  }

  /** `to_pathnode` undoes `to_path`: the step comes back in path notation, and
      reading that back gives the node and its direction. */
  lemma ToPathNodeOfToPath(g: GraphPos)
    requires g.id <= USIZE_MAX
    ensures ToPathNode(ToPath(g)) == StepText(g)
    ensures ParseGraphPos(ToPathNode(ToPath(g))) == Some(g.(pos := 0))
  {
    ParseStepText(g);
  }

  // ---------------------------------------------------------------------------
  // re.findall("[><][0123456789]+", walk)

  predicate IsArrow(c: char) { c == '>' || c == '<' }

  /** A match of the pattern: an arrow and one or more ASCII digits. */
  predicate IsWalkNode(w: string)
  {
    |w| > 1 && IsArrow(w[0]) && AllDigits(w[1..])
  }

  /** Length of the leading run of digits. */
  function DigitRun(s: string): (k: nat)
    ensures k <= |s| && AllDigits(s[..k])
    ensures k < |s| ==> !IsDigit(s[k])
    decreases |s|
  {
    if |s| == 0 || !IsDigit(s[0]) then 0
    else
      var k := 1 + DigitRun(s[1..]);
      assert s[..k] == [s[0]] + s[1..][..k - 1];
      k
  }

  /** The leftmost non-overlapping matches, each as long as it can be: at an arrow
      followed by digits take the arrow and all the digits, else move on by one. */
  function WalkNodes(s: string): (ws: seq<string>)
    ensures forall k :: 0 <= k < |ws| ==> IsWalkNode(ws[k])
    decreases |s|
  {
    if |s| == 0 then []
    else if IsArrow(s[0]) && DigitRun(s[1..]) > 0 then
      var k := 1 + DigitRun(s[1..]);
      assert s[..k][1..] == s[1..][..k - 1];
      [s[..k]] + WalkNodes(s[k..])
    else WalkNodes(s[1..])
  }

  /** The walk field of a W line that lists the steps `gs`. */
  function WalkText(gs: seq<GraphPos>): string
  {
    if |gs| == 0 then "" else ToPath(gs[0]) + WalkText(gs[1..])
  }

  /** The digit run of digits followed by a non-digit is the digits. */
  lemma {:induction false} DigitRunPrefix(d: string, rest: string)
    requires AllDigits(d)
    requires |rest| == 0 || !IsDigit(rest[0])
    ensures DigitRun(d + rest) == |d|
    decreases |d|
  {
    if |d| > 0 {
      assert (d + rest)[1..] == d[1..] + rest;
      DigitRunPrefix(d[1..], rest);
    } else {
      assert d + rest == rest;
    }
  }

  /** A match followed by an arrow or by nothing is found whole, and the search goes
      on after it. */
  lemma WalkNodesCons(w: string, rest: string)
    requires IsWalkNode(w)
    requires |rest| == 0 || IsArrow(rest[0])
    ensures WalkNodes(w + rest) == [w] + WalkNodes(rest)
  {
    var s := w + rest;
    assert s[0] == w[0] && IsArrow(s[0]);
    assert s[1..] == w[1..] + rest;
    DigitRunPrefix(w[1..], rest);
    var k := 1 + DigitRun(s[1..]);
    assert k == |w| && DigitRun(s[1..]) > 0;
    assert WalkNodes(s) == [s[..k]] + WalkNodes(s[k..]);
    assert s[..k] == w && s[k..] == rest;
  }

  /** A step in walk notation is a match of the pattern. */
  lemma ToPathIsWalkNode(g: GraphPos)
    ensures IsWalkNode(ToPath(g))
  {
    NatToDecShape(g.id);
  }

  /** A walk of at least one step starts with the arrow of its first step. */
  lemma WalkTextHead(gs: seq<GraphPos>)
    requires |gs| > 0
    ensures |WalkText(gs)| > 0 && IsArrow(WalkText(gs)[0])
  {
    ToPathIsWalkNode(gs[0]);
  }

  /** Finding the matches in a walk made of steps gives the steps back, one match
      per step and in order. */
  lemma {:induction false} WalkNodesOfWalk(gs: seq<GraphPos>)
    ensures |WalkNodes(WalkText(gs))| == |gs|
    ensures forall k :: 0 <= k < |gs| ==> WalkNodes(WalkText(gs))[k] == ToPath(gs[k])
    decreases |gs|
  {
    if |gs| > 0 {
      var rest := WalkText(gs[1..]);
      assert WalkText(gs) == ToPath(gs[0]) + rest;
      if |gs| > 1 {
        WalkTextHead(gs[1..]);
      }
      ToPathIsWalkNode(gs[0]);
      WalkNodesCons(ToPath(gs[0]), rest);
      WalkNodesOfWalk(gs[1..]);
      var ws := WalkNodes(WalkText(gs));
      assert ws == [ToPath(gs[0])] + WalkNodes(rest);
      forall k | 0 < k < |gs| ensures ws[k] == ToPath(gs[k]) {
        assert ws[k] == WalkNodes(rest)[k - 1];
        assert gs[1..][k - 1] == gs[k];
      }
    }
  }

  // ---------------------------------------------------------------------------
  // Lines

  predicate StartsWith(line: string, c: char) { |line| > 0 && line[0] == c }

  /** The steps of a walk, `to_pathnode` applied to each match. */
  function PathSteps(walk: string): seq<string>
  {
    var ws := WalkNodes(walk);
    seq(|ws|, k requires 0 <= k < |ws| => ToPathNode(ws[k]))
  }

  /** The P line printed for a W line with the given sample and walk fields. */
  function PathLine(sample: string, walk: string): string
  {
    "P\t" + sample + "\t" + JoinWith(PathSteps(walk), ",") + "\t*\n"
  }

  /** What one input line prints: H, S and L lines unchanged, a W line as a P line,
      anything else nothing. `None` when a W line does not split into exactly seven
      fields (the tuple unpacking raises and the program stops). */
  function Emit(line: string): Option<string>
  {
    if StartsWith(line, 'H') || StartsWith(line, 'S') || StartsWith(line, 'L') then Some(line)
    else if StartsWith(line, 'W') then
      var f := PySplit(line);
      if |f| != 7 then None else Some(PathLine(f[1], f[6]))
    else Some("")
  }

  /** What the program printed, and whether it stopped on a malformed W line. */
  datatype Outcome = Outcome(out: string, stopped: bool)

  /** The whole run over the lines of the file (each with its line break, as
      `readlines` gives them). */
  function Converted(lines: seq<string>): Outcome
  {
    if |lines| == 0 then Outcome("", false)
    else
      var before := Converted(lines[..|lines| - 1]);
      if before.stopped then before
      else match Emit(lines[|lines| - 1])
        case None => Outcome(before.out, true)
        case Some(e) => Outcome(before.out + e, false)
  }

  const USAGE: string := "Usage: walks2paths.py <gfa_with_walks> > <output_gfa>\n"

  /** The script: with other than one argument it prints the usage line and stops;
      otherwise it prints line by line what each line of the file becomes. */
  method Run(argc: nat, lines: seq<string>) returns (out: string, stopped: bool)
    ensures argc != 2 ==> out == USAGE && stopped
    ensures argc == 2 ==> Outcome(out, stopped) == Converted(lines)
  {
    if argc != 2 {
      return USAGE, true;
    }
    out, stopped := "", false;
    for i := 0 to |lines|
      invariant Converted(lines[..i]) == Outcome(out, false)
    {
      assert lines[..i + 1][..i] == lines[..i];
      var e := Emit(lines[i]);
      if e.None? {
        ConvertedStopped(lines, i + 1);
        return out, true;
      }
      out := out + e.value;
    }
    assert lines[..|lines|] == lines;
  }

  /** Once a line stops the program, the lines after it change nothing. */
  lemma {:induction false} ConvertedStopped(lines: seq<string>, n: nat)
    requires n <= |lines| && Converted(lines[..n]).stopped
    ensures Converted(lines) == Converted(lines[..n])
    decreases |lines| - n
  {
    if n < |lines| {
      assert lines[..n + 1][..n] == lines[..n];
      ConvertedStopped(lines, n + 1);
    } else {
      assert lines[..n] == lines;
    }
  }

  /** The header, segment and link lines of a file, in order. */
  function Echoed(lines: seq<string>): string
  {
    if |lines| == 0 then ""
    else
      var l := lines[|lines| - 1];
      Echoed(lines[..|lines| - 1]) +
        (if StartsWith(l, 'H') || StartsWith(l, 'S') || StartsWith(l, 'L') then l else "")
  }

  /** A file without walks comes out as its H, S and L lines: every other record
      type is dropped and nothing stops the run. */
  lemma {:induction false} ConvertedWithoutWalks(lines: seq<string>)
    requires forall k :: 0 <= k < |lines| ==> !StartsWith(lines[k], 'W')
    ensures Converted(lines) == Outcome(Echoed(lines), false)
    decreases |lines|
  {
    if |lines| > 0 {
      ConvertedWithoutWalks(lines[..|lines| - 1]);
    }
  }

  /** The steps of a walk in path notation. */
  function StepTexts(gs: seq<GraphPos>): seq<string>
  {
    seq(|gs|, k requires 0 <= k < |gs| => StepText(gs[k]))
  }

  /** The P line lists the steps of the walk, in order, each in path notation. */
  lemma PathStepsOfWalk(gs: seq<GraphPos>)
    ensures PathSteps(WalkText(gs)) == StepTexts(gs)
  {
    WalkNodesOfWalk(gs);
    var steps := PathSteps(WalkText(gs));
    forall k | 0 <= k < |gs| ensures steps[k] == StepText(gs[k]) {
      NatToDecShape(gs[k].id);
      assert ToPathNode(ToPath(gs[k])) == StepText(gs[k]);
    }
  }

  /** A line of seven blank-free fields, the first "W", joined by tabs: `split()`
      gives the fields back and the line is a W line. */
  lemma WalkLineSplits(fields: seq<string>)
    requires |fields| == 7 && fields[0] == "W"
    requires forall k :: 0 <= k < 7 ==> |fields[k]| > 0 && NoneIn(fields[k], IsPySpace)
    ensures var line := JoinWith(fields, "\t") + "\n";
      PySplit(line) == fields && StartsWith(line, 'W')
  {
    TokensOfJoin(fields, '\t', IsPySpace);
    var joined := JoinWith(fields, "\t");
    TokensDropTrailingSpaces(joined, "\n", IsPySpace);
    assert joined == fields[0] + "\t" + JoinWith(fields[1..], "\t");
  }

  /** Splitting a W line rewrites it to the P line of its second and last fields. */
  lemma EmitWalkLine(fields: seq<string>)
    requires |fields| == 7 && fields[0] == "W"
    requires forall k :: 0 <= k < 7 ==> |fields[k]| > 0 && NoneIn(fields[k], IsPySpace)
    ensures Emit(JoinWith(fields, "\t") + "\n") == Some(PathLine(fields[1], fields[6]))
  {
    WalkLineSplits(fields);
  }

  /** Letters and digits are not blanks. */
  lemma WalkNodeHasNoBlank(w: string)
    requires IsWalkNode(w)
    ensures NoneIn(w, IsPySpace)
  {
    forall i | 0 < i < |w| ensures !IsPySpace(w[i]) {
      assert w[i] == w[1..][i - 1];
    }
  }

  /** A walk of at least one step is a non-empty run of arrows and digits. */
  lemma {:induction false} WalkTextShape(gs: seq<GraphPos>)
    requires |gs| > 0
    ensures |WalkText(gs)| > 0 && NoneIn(WalkText(gs), IsPySpace)
    decreases |gs|
  {
    var w := ToPath(gs[0]);
    ToPathIsWalkNode(gs[0]);
    WalkNodeHasNoBlank(w);
    if |gs| > 1 {
      WalkTextShape(gs[1..]);
      var rest := WalkText(gs[1..]);
      forall i | 0 <= i < |w + rest| ensures !IsPySpace((w + rest)[i]) {
        if i >= |w| {
          assert (w + rest)[i] == rest[i - |w|];
        }
      }
    } else {
      assert WalkText(gs) == w + "";
    }
  }

  /** A W line written from a sample and a non-empty walk of steps (with blank-free
      fields) becomes the P line of that sample whose steps are the walk's steps in
      path notation, joined by ','. */
  lemma WalkLineToPathLine(sample: string, hap: string, seqId: string, start: string, end: string, gs: seq<GraphPos>)
    requires |gs| > 0
    requires |sample| > 0 && NoneIn(sample, IsPySpace) && |hap| > 0 && NoneIn(hap, IsPySpace)
    requires |seqId| > 0 && NoneIn(seqId, IsPySpace)
    requires |start| > 0 && NoneIn(start, IsPySpace) && |end| > 0 && NoneIn(end, IsPySpace)
    ensures Emit(JoinWith(["W", sample, hap, seqId, start, end, WalkText(gs)], "\t") + "\n") ==
      Some("P\t" + sample + "\t" + JoinWith(StepTexts(gs), ",") + "\t*\n")
  {
    var walk := WalkText(gs);
    var fields := ["W", sample, hap, seqId, start, end, walk];
    WalkTextShape(gs);
    assert NoneIn("W", IsPySpace);
    forall k | 0 <= k < 7 ensures |fields[k]| > 0 && NoneIn(fields[k], IsPySpace) {
      if k == 0 { assert fields[k] == "W"; }
      else if k == 1 { assert fields[k] == sample; }
      else if k == 2 { assert fields[k] == hap; }
      else if k == 3 { assert fields[k] == seqId; }
      else if k == 4 { assert fields[k] == start; }
      else if k == 5 { assert fields[k] == end; }
      else { assert fields[k] == walk; }
    }
    EmitWalkLine(fields);
    PathStepsOfWalk(gs);
  }

  /** The examples of the script's own notation: ">12" and "<7". */
  lemma ToPathNodeExamples()
    ensures ToPathNode(">12") == "12+" && ToPathNode("<7") == "7-"
  {
  }
}
