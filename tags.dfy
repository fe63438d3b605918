/** The tag files: the sampled tag array that `create_tag` writes and
    `read_tag_array` reads back (src/main.rs), and the table that `write_table`
    prints (src/generate_tag.rs). */
module TagFile {
  import opened Wrappers
  import opened Text
  import opened GraphPositions

  // ---------------------------------------------------------------------------
  // The sampled tag array

  /** One line of the file `create_tag` writes: the sa value, a tab, then the node id,
      the sign and ':' and the offset in the node. */
  function TagLine(sa: nat, g: GraphPos): (l: string)
    ensures |l| > 0
  {
    NatToDec(sa) + "\t" + (StepText(g) + ":" + NatToDec(g.pos))
  }

  function TagLines(ssa: seq<nat>, stag: seq<GraphPos>): (ls: seq<string>)
    requires |stag| >= |ssa|
    ensures |ls| == |ssa| && forall i :: 0 <= i < |ssa| ==> ls[i] == TagLine(ssa[i], stag[i])
  {
    seq(|ssa|, i requires 0 <= i < |ssa| => TagLine(ssa[i], stag[i]))
  }

  /** `create_tag`'s writing loop: one line per sampled entry, in order. */
  method WriteTags(ssa: seq<nat>, stag: seq<GraphPos>) returns (out: string)
    requires |stag| >= |ssa|
    ensures out == Unlines(TagLines(ssa, stag))
  {
    out := "";
    ghost var written: seq<string> := [];
    for i := 0 to |ssa|
      invariant |written| == i && forall k :: 0 <= k < i ==> written[k] == TagLine(ssa[k], stag[k])
      invariant out == Unlines(written)
    {
      var line := TagLine(ssa[i], stag[i]);
      UnlinesSnoc(written, line);
      out := out + line + "\n";
      written := written + [line];
    }
    assert written == TagLines(ssa, stag);
  }

  /** The closure of `read_tag_array` on one line, as written: split at tabs into
      exactly two fields, the sa value and a `GraphPos` read by `from_str`. Every
      failure there panics; here it is `None`. An empty second field makes
      `from_str` underflow and is a failure too. */
  function ReadTagLine(line: string): (r: Option<(nat, GraphPos)>)
    ensures r.Some? ==> |SplitOn(line, '\t')| == 2
    ensures r.Some? ==> ParseUsize(SplitOn(line, '\t')[0]) == Some(r.value.0)
    ensures r.Some? ==> r.value.1.pos == 0
  {
    var z := SplitOn(line, '\t');
    if |z| != 2 || |z[1]| == 0 then None
    else
      var sa := ParseUsize(z[0]);
      var g := ParseGraphPos(z[1]);
      if sa.Some? && g.Some? then Some((sa.value, g.value)) else None
  }

  /** The same line with the field after the tab split once more at ':' into the step
      and the offset, which is what `create_tag` writes. */
  function ReadTagLineFixed(line: string): (r: Option<(nat, GraphPos)>)
    ensures r.Some? ==> |SplitOn(line, '\t')| == 2
    ensures r.Some? ==> ParseUsize(SplitOn(line, '\t')[0]) == Some(r.value.0)
  {
    var z := SplitOn(line, '\t');
    if |z| != 2 then None
    else
      var w := SplitOn(z[1], ':');
      if |w| != 2 || |w[0]| == 0 then None
      else
        var sa := ParseUsize(z[0]);
        var g := ParseGraphPos(w[0]);
        var pos := ParseUsize(w[1]);
        if sa.Some? && g.Some? && pos.Some? then Some((sa.value, g.value.(pos := pos.value))) else None
  }

  /** `read_tag_array`: read every line, failing as soon as one line fails, and unzip. */
  function Collect(ls: seq<string>, read: string -> Option<(nat, GraphPos)>): (r: Option<(seq<nat>, seq<GraphPos>)>)
    ensures r.Some? ==> |r.value.0| == |ls| && |r.value.1| == |ls|
    ensures r.Some? ==> forall i :: 0 <= i < |ls| ==> read(ls[i]) == Some((r.value.0[i], r.value.1[i]))
  {
    if |ls| == 0 then Some(([], []))
    else
      var first := read(ls[0]);
      var rest := Collect(ls[1..], read);
      if first.None? || rest.None? then None
      else
        var (sa, g) := first.value;
        Some(([sa] + rest.value.0, [g] + rest.value.1))
  }

  function ReadTagArray(text: string): Option<(seq<nat>, seq<GraphPos>)>
  {
    Collect(Lines(text), ReadTagLine)
  }

  function ReadTagArrayFixed(text: string): Option<(seq<nat>, seq<GraphPos>)>
  {
    Collect(Lines(text), ReadTagLineFixed)
  }

  /** A decimal holds none of the separators the tag format uses. */
  lemma DecimalFree(n: nat)
    ensures |NatToDec(n)| > 0 && IsDigit(NatToDec(n)[|NatToDec(n)| - 1])
    ensures '\t' !in NatToDec(n) && ':' !in NatToDec(n) && '\n' !in NatToDec(n)
  {
    NatToDecShape(n);
  }

  /** The text of a step holds neither a tab nor a ':'. */
  lemma StepFree(g: GraphPos)
    ensures '\t' !in StepText(g) && ':' !in StepText(g)
  {
    DecimalFree(g.id);
    assert StepText(g) == NatToDec(g.id) + DirectionText(g.sign);
  }

  /** A tag line is two tab-separated fields, the second a step, ':' and an offset. */
  lemma TagLineFields(sa: nat, g: GraphPos)
    ensures SplitOn(TagLine(sa, g), '\t') == [NatToDec(sa), StepText(g) + ":" + NatToDec(g.pos)]
    ensures SplitOn(StepText(g) + ":" + NatToDec(g.pos), ':') == [StepText(g), NatToDec(g.pos)]
  {
    var step, d := StepText(g), NatToDec(g.pos);
    StepFree(g);
    DecimalFree(sa);
    DecimalFree(g.pos);
    assert '\t' !in step + ":" + d;
    SplitTwo(NatToDec(sa), '\t', step + ":" + d);
    SplitTwo(step, ':', d);
  }

  /** As written, `read_tag_array` cannot read a line `create_tag` wrote: the second
      field ends with a digit of the offset, not with a sign. */
  lemma TagLineUnreadable(sa: nat, g: GraphPos)
    ensures ReadTagLine(TagLine(sa, g)) == None
  {
    DecimalFree(sa);
    StepFree(g);
    DecimalFree(g.pos);
    var f := StepText(g) + ":" + NatToDec(g.pos);
    assert '\t' !in f;
    SplitTwo(NatToDec(sa), '\t', f);
    assert f[|f| - 1] == NatToDec(g.pos)[|NatToDec(g.pos)| - 1];
    assert DirectionOf(f[|f| - 1]) == None;
    assert ParseGraphPos(f) == None;
  }

  /** Splitting at ':' reads every line back. */
  lemma TagLineRoundTrip(sa: nat, g: GraphPos)
    requires sa <= USIZE_MAX && g.id <= USIZE_MAX && g.pos <= USIZE_MAX
    ensures ReadTagLineFixed(TagLine(sa, g)) == Some((sa, g))
  {
    TagLineFields(sa, g);
    ParseUsizeOfDec(sa);
    ParseUsizeOfDec(g.pos);
    ParseStepText(g);
  }

  /** A tag line is a line of text: no '\n' inside and no '\r' at its end. */
  lemma TagLinesAreLines(ssa: seq<nat>, stag: seq<GraphPos>)
    requires |stag| >= |ssa|
    ensures var ls := TagLines(ssa, stag);
      forall k :: 0 <= k < |ls| ==> '\n' !in ls[k] && (|ls[k]| > 0 ==> ls[k][|ls[k]| - 1] != '\r')
  {
    var ls := TagLines(ssa, stag);
    forall k | 0 <= k < |ls| ensures '\n' !in ls[k] && ls[k][|ls[k]| - 1] != '\r' {
      var g := stag[k];
      DecimalFree(ssa[k]);
      DecimalFree(g.id);
      DecimalFree(g.pos);
      var d := NatToDec(g.pos);
      assert ls[k] == NatToDec(ssa[k]) + "\t" + ((NatToDec(g.id) + DirectionText(g.sign)) + ":" + d);
      assert ls[k][|ls[k]| - 1] == d[|d| - 1];
    }
  }

  /** The file as written is unreadable as soon as it has one line. */
  lemma TagArrayUnreadable(ssa: seq<nat>, stag: seq<GraphPos>)
    requires |ssa| > 0 && |stag| >= |ssa|
    ensures ReadTagArray(Unlines(TagLines(ssa, stag))) == None
  {
    var ls := TagLines(ssa, stag);
    TagLinesAreLines(ssa, stag);
    LinesOfUnlines(ls);
    TagLineUnreadable(ssa[0], stag[0]);
  }

  /** With the ':' split, reading the file gives back the sampled arrays. */
  lemma TagArrayRoundTrip(ssa: seq<nat>, stag: seq<GraphPos>)
    requires |stag| == |ssa|
    requires forall i :: 0 <= i < |ssa| ==> ssa[i] <= USIZE_MAX && stag[i].id <= USIZE_MAX && stag[i].pos <= USIZE_MAX
    ensures ReadTagArrayFixed(Unlines(TagLines(ssa, stag))) == Some((ssa, stag))
  {
    var ls := TagLines(ssa, stag);
    TagLinesAreLines(ssa, stag);
    LinesOfUnlines(ls);
    CollectFixed(ls, ssa, stag);
  }

  lemma {:induction false} CollectFixed(ls: seq<string>, ssa: seq<nat>, stag: seq<GraphPos>)
    requires |ls| == |ssa| == |stag|
    requires forall i :: 0 <= i < |ssa| ==> ssa[i] <= USIZE_MAX && stag[i].id <= USIZE_MAX && stag[i].pos <= USIZE_MAX
    requires forall i :: 0 <= i < |ls| ==> ls[i] == TagLine(ssa[i], stag[i])
    ensures Collect(ls, ReadTagLineFixed) == Some((ssa, stag))
    decreases |ls|
  {
    if |ls| > 0 {
      TagLineRoundTrip(ssa[0], stag[0]);
      CollectFixed(ls[1..], ssa[1..], stag[1..]);
      assert [ssa[0]] + ssa[1..] == ssa;
      assert [stag[0]] + stag[1..] == stag;
    }
  }

  // ---------------------------------------------------------------------------
  // write_table

  /** A tag of the naive tag array: the step name (node name and sign) and the offset. */
  type Tag = (string, nat)

  /** One row of `write_table`: sa value, tag name and offset, each followed by a tab,
      then, when the text is given, the rotation of the text that starts at the sa value. */
  function Row(sa: nat, tag: Tag, text: Option<string>): (l: string)
    requires text.Some? ==> sa <= |text.value|
  {
    NatToDec(sa) + "\t" + (tag.0 + "\t" + (NatToDec(tag.1) + "\t" +
    (if text.Some? then text.value[sa..] + text.value[..sa] else "")))
  }

  function Rows(sa: seq<nat>, tag: seq<Tag>, text: Option<string>): (ls: seq<string>)
    requires |tag| >= |sa|
    requires text.Some? ==> forall i :: 0 <= i < |sa| ==> sa[i] <= |text.value|
    ensures |ls| == |sa| && forall i :: 0 <= i < |sa| ==> ls[i] == Row(sa[i], tag[i], text)
  {
    seq(|sa|, i requires 0 <= i < |sa| => Row(sa[i], tag[i], text))
  }

  /** `write_table`: one row per suffix-array entry, in suffix-array order, each ended
      by '\n'. Slicing the text at an sa value past its end panics, hence the bound. */
  method WriteTable(sa: seq<nat>, tag: seq<Tag>, text: Option<string>) returns (out: string)
    requires |tag| >= |sa|
    requires text.Some? ==> forall i :: 0 <= i < |sa| ==> sa[i] <= |text.value|
    ensures out == Unlines(Rows(sa, tag, text))
  {
    out := "";
    ghost var written: seq<string> := [];
    for i := 0 to |sa|
      invariant |written| == i && forall k :: 0 <= k < i ==> written[k] == Row(sa[k], tag[k], text)
      invariant out == Unlines(written)
    {
      var rotation := "";
      if text.Some? {
        rotation := text.value[sa[i]..] + text.value[..sa[i]];
      }
      var row := NatToDec(sa[i]) + "\t" + (tag[i].0 + "\t" + (NatToDec(tag[i].1) + "\t" + rotation));
      UnlinesSnoc(written, row);
      out := out + row + "\n";
      written := written + [row];
    }
    assert written == Rows(sa, tag, text);
  }

  /** A row splits at its tabs into the sa value, the tag name, the offset and the
      rotation, provided the name and the text hold no tab. */
  lemma RowFields(sa: nat, tag: Tag, text: Option<string>)
    requires text.Some? ==> sa <= |text.value| && '\t' !in text.value
    requires '\t' !in tag.0
    ensures var rot := if text.Some? then text.value[sa..] + text.value[..sa] else "";
      SplitOn(Row(sa, tag, text), '\t') == [NatToDec(sa), tag.0, NatToDec(tag.1), rot]
  {
    DecimalFree(sa);
    DecimalFree(tag.1);
    var rot := if text.Some? then text.value[sa..] + text.value[..sa] else "";
    if text.Some? {
      var s := text.value;
      assert rot == s[sa..] + s[..sa];
      forall k | 0 <= k < |rot| ensures rot[k] != '\t' {
        RowRotation(sa, s, k);
        var j := if sa + k < |s| then sa + k else sa + k - |s|;
        assert rot[k] == s[j] && s[j] in s;
      }
      assert '\t' !in rot;
    }
    var parts := [NatToDec(sa), tag.0, NatToDec(tag.1), rot];
    assert JoinWith(parts[3..], "\t") == rot;
    assert JoinWith(parts[2..], "\t") == NatToDec(tag.1) + "\t" + rot;
    assert JoinWith(parts[1..], "\t") == tag.0 + "\t" + (NatToDec(tag.1) + "\t" + rot);
    assert JoinWith(parts, "\t") == Row(sa, tag, text);
    SplitOnJoin(parts, '\t');
  }

  /** Reading the table back line by line gives one line per suffix-array entry, each
      the row of that entry, when no name and no text holds a line break. */
  lemma TableLines(sa: seq<nat>, tag: seq<Tag>, text: Option<string>)
    requires |tag| >= |sa|
    requires text.Some? ==> forall i :: 0 <= i < |sa| ==> sa[i] <= |text.value|
    requires text.Some? ==> '\n' !in text.value && '\r' !in text.value
    requires forall i :: 0 <= i < |sa| ==> '\n' !in tag[i].0 && '\r' !in tag[i].0
    ensures Lines(Unlines(Rows(sa, tag, text))) == Rows(sa, tag, text)
  {
    var rows := Rows(sa, tag, text);
    forall k | 0 <= k < |rows| ensures '\n' !in rows[k] && (|rows[k]| > 0 ==> rows[k][|rows[k]| - 1] != '\r') {
      DecimalFree(sa[k]);
      DecimalFree(tag[k].1);
      NatToDecShape(sa[k]);
      NatToDecShape(tag[k].1);
      var rot := if text.Some? then text.value[sa[k]..] + text.value[..sa[k]] else "";
      var tail := NatToDec(tag[k].1) + "\t" + rot;
      if text.Some? {
        var s := text.value;
        assert rot == s[sa[k]..] + s[..sa[k]];
        forall j | 0 <= j < |rot| ensures rot[j] != '\n' && rot[j] != '\r' {
          RowRotation(sa[k], s, j);
          var m := if sa[k] + j < |s| then sa[k] + j else sa[k] + j - |s|;
          assert rot[j] == s[m] && s[m] in s;
        }
      }
      assert '\n' !in rot && '\r' !in rot;
      assert rows[k][|rows[k]| - 1] == tail[|tail| - 1];
    }
    LinesOfUnlines(rows);
  }

  /** The rotation in a row is a rotation: it has the text's length and the character
      at offset k is the text's character at sa + k, wrapping round at the end. */
  lemma RowRotation(sa: nat, s: string, k: nat)
    requires sa <= |s| && k < |s|
    ensures |s[sa..] + s[..sa]| == |s|
    ensures sa + k < |s| ==> (s[sa..] + s[..sa])[k] == s[sa + k]
    ensures sa + k >= |s| ==> (s[sa..] + s[..sa])[k] == s[sa + k - |s|]
  {
    var rot := s[sa..] + s[..sa];
    if k < |s| - sa {
      assert rot[k] == s[sa..][k];
    } else {
      assert rot[k] == s[..sa][k - (|s| - sa)];
    }
  }
}
