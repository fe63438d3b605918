/** Positions in the pangenome graph and their text forms (src/gp.rs, with the
    copies in src/bin/main3/gp.rs and src/bin/main3.rs, whose fields are named
    node_id/direction/node_pos): a node id, the strand it is read on, and an
    offset in the node. */
module GraphPositions {
  import opened Wrappers
  import opened Text

  datatype Direction = Forward | RevComp

  /** `Display` for `Direction`. */
  function DirectionText(d: Direction): (s: string)
    ensures |s| == 1
    ensures s[0] == '+' <==> d == Forward
    ensures s[0] == '-' <==> d == RevComp
  {
    match d
    case Forward => "+"
    case RevComp => "-"
  }

  /** The match on the last byte in `from_str`: '+' and '-' name a direction, any
      other byte is an error. */
  function DirectionOf(c: char): (r: Option<Direction>)
    ensures r.Some? <==> c == '+' || c == '-'
  {
    if c == '+' then Some(Forward) else if c == '-' then Some(RevComp) else None
  }

  /** The direction's sign is read back as that direction, and only a sign reads as one. */
  lemma DirectionRoundTrip(d: Direction, c: char)
    ensures DirectionOf(DirectionText(d)[0]) == Some(d)
    ensures DirectionOf(c) == Some(d) ==> DirectionText(d) == [c]
  {
  }

  datatype GraphPos = GraphPos(id: nat, sign: Direction, pos: nat)

  /** `#[derive(Default)]` on `GraphPos` with `#[default] Forward` (src/gp.rs). */
  function DefaultGraphPos(): (g: GraphPos)
    ensures g.id == 0 && g.sign == Forward && g.pos == 0
  {
    GraphPos(0, Forward, 0)
  }

  /** `GraphPos::from_str`: everything but the last byte is the decimal node id and
      the last byte the direction; the offset is always 0. The empty string makes
      `s.len() - 1` underflow, so it is excluded. */
  function ParseGraphPos(s: string): (r: Option<GraphPos>)
    requires |s| > 0
    ensures r.Some? <==> ParseUsize(s[..|s| - 1]).Some? && (s[|s| - 1] == '+' || s[|s| - 1] == '-')
    ensures r.Some? ==> r.value.pos == 0 && r.value.id == ParseUsize(s[..|s| - 1]).value &&
                        DirectionText(r.value.sign) == s[|s| - 1..]
  {
    var id := ParseUsize(s[..|s| - 1]);
    var sign := DirectionOf(s[|s| - 1]);
    if id.Some? && sign.Some? then Some(GraphPos(id.value, sign.value, 0)) else None
  }

  /** A step as the paths of a GFA file write it: the node id followed by its sign. */
  function StepText(g: GraphPos): (s: string)
    ensures |s| > 0 && s[..|s| - 1] == NatToDec(g.id)
  {
    NatToDec(g.id) + DirectionText(g.sign)
  }

  /** `from_str` reads a written step back, with offset 0. */
  lemma ParseStepText(g: GraphPos)
    requires g.id <= USIZE_MAX
    ensures ParseGraphPos(StepText(g)) == Some(g.(pos := 0))
  {
    var s := StepText(g);
    assert s[|s| - 1] == DirectionText(g.sign)[0];
    ParseUsizeOfDec(g.id);
  }

  /** `GraphPos::to_path` (src/gp.rs): '>' for forward and '<' for reverse, then the id. */
  function ToPath(g: GraphPos): (s: string)
    ensures |s| > 1 && s[1..] == NatToDec(g.id)
    ensures s[0] == '>' <==> g.sign == Forward
    ensures s[0] == '<' <==> g.sign == RevComp
  {
    (if g.sign == Forward then ">" else "<") + NatToDec(g.id)
  }

  /** The walk notation keeps id and direction: two positions with the same text agree
      on both. */
  lemma ToPathInjective(g: GraphPos, h: GraphPos)
    requires ToPath(g) == ToPath(h)
    ensures g.id == h.id && g.sign == h.sign
  {
    NatToDecShape(g.id);
    NatToDecShape(h.id);
    assert NatToDec(g.id) == ToPath(g)[1..] == ToPath(h)[1..] == NatToDec(h.id);
  }

  /** The examples of the source's comments: "12+", "12-", "7+", and errors for an
      unknown sign or a missing id. */
  lemma ParseExamples()
    ensures ParseGraphPos("12+") == Some(GraphPos(12, Forward, 0))
    ensures ParseGraphPos("12-") == Some(GraphPos(12, RevComp, 0))
    ensures ParseGraphPos("7+") == Some(GraphPos(7, Forward, 0))
    ensures ParseGraphPos("12x") == None
    ensures ParseGraphPos("+") == None
    ensures ToPath(GraphPos(12, RevComp, 3)) == "<12"
  {
    assert "12+"[..2] == "12";
    assert "12-"[..2] == "12";
    assert "7+"[..1] == "7";
    assert DecValue("12") == 12 by {
      assert "12"[..1] == "1";
    }
    assert "+"[..0] == "";
    assert NatToDec(12) == "12";
  }
}
