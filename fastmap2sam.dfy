/** scripts/fastmap2sam.py: turns the output of a fastmap-style matcher into SAM.
    An "SQ" line names the query; each following "EM" line lists, after the query
    interval and the hit count, hits of the form "rname:+pos" or "rname:-pos", and
    each hit becomes one SAM alignment line: the eleven mandatory fields of section
    1.4 of the SAM/BAM Format Specification (SAMv1) plus an empty tags column. The
    header is one "@SQ" line per reference sequence. */
module FastmapToSam {
  import opened Wrappers
  import opened Text

  // ---------------------------------------------------------------------------
  // Header

  /** `print_header`: the reference-sequence dictionary line of one FASTA record,
      "@SQ", "SN:<id>" and "LN:<length>" separated by tabs. */
  function HeaderLine(id: string, length: nat): string
  {
    JoinWith(["@SQ", "SN:" + id, "LN:" + NatToDec(length)], "\t")
  }

  /** The header line splits at its tabs into the three fields of an @SQ line, and
      the LN field reads back as the sequence length. */
  lemma HeaderLineFields(id: string, length: nat)
    requires '\t' !in id && length <= USIZE_MAX
    ensures SplitOn(HeaderLine(id, length), '\t') == ["@SQ", "SN:" + id, "LN:" + NatToDec(length)]
    ensures ParseUsize(SplitOn(HeaderLine(id, length), '\t')[2][3..]) == Some(length)
  {
    var fields := ["@SQ", "SN:" + id, "LN:" + NatToDec(length)];
    DecHasNoTab(length);
    forall k | 0 <= k < 3 ensures '\t' !in fields[k] {
      if k == 1 {
        assert fields[k] == "SN:" + id;
      } else if k == 2 {
        assert fields[k] == "LN:" + NatToDec(length);
      }
    }
    SplitOnJoin(fields, '\t');
    assert fields[2][3..] == NatToDec(length);
    ParseUsizeOfDec(length);
  }

  // ---------------------------------------------------------------------------
  // One alignment line

  const MAPQ: nat := 60

  predicate StartsWith(s: string, prefix: string)
  {
    |prefix| <= |s| && s[..|prefix|] == prefix
  }

  /** FLAG: 0 on the forward strand ("+pos"), 16 (0x10, the read is reverse
      complemented) for anything else. */
  function Flag(hit: string): nat
  {
    if StartsWith(hit, "+") then 0 else 16
  }

  /** POS: the hit without its strand character (Python's `rest[1:]`, empty when the
      hit is). */
  function Pos(hit: string): string
  {
    if |hit| == 0 then "" else hit[1..]
  }

  /** The values the line of one hit prints, in order: QNAME, FLAG, RNAME, POS, MAPQ,
      CIGAR "<TLEN>M", RNEXT "*", PNEXT "0", TLEN = qend - qstart, SEQ "*", QUAL "*"
      and the empty tags. */
  function SamFields(qname: string, rname: string, hit: string, tlen: int): seq<string>
  {
    [qname, NatToDec(Flag(hit)), rname, Pos(hit), NatToDec(MAPQ), IntToDec(tlen) + "M", "*", "0",
     IntToDec(tlen), "*", "*", ""]
  }

  /** The printed line: the f-string puts a tab between each two of those values. */
  function SamLine(qname: string, rname: string, hit: string, tlen: int): string
  {
    JoinWith(SamFields(qname, rname, hit, tlen), "\t")
  }

  /** Decimal spellings hold no tab. */
  lemma DecHasNoTab(x: int)
    ensures '\t' !in IntToDec(x)
  {
    var m: nat := if x < 0 then -x else x;
    NatToDecShape(m);
    assert '\t' !in NatToDec(m) by {
      forall i | 0 <= i < |NatToDec(m)| ensures NatToDec(m)[i] != '\t' {
        assert IsDigit(NatToDec(m)[i]);
      }
    }
    if x < 0 {
      assert IntToDec(x) == "-" + NatToDec(m);
    }
  }

  /** With no tab in the query name, the reference name or the hit, the line splits at
      its tabs back into exactly the twelve columns of a SAM alignment line. */
  lemma SamLineFields(qname: string, rname: string, hit: string, tlen: int)
    requires '\t' !in qname && '\t' !in rname && '\t' !in hit
    ensures SplitOn(SamLine(qname, rname, hit, tlen), '\t') == SamFields(qname, rname, hit, tlen)
  {
    var f := SamFields(qname, rname, hit, tlen);
    DecHasNoTab(Flag(hit));
    DecHasNoTab(MAPQ);
    DecHasNoTab(tlen);
    assert '\t' !in Pos(hit);
    forall k | 0 <= k < |f| ensures '\t' !in f[k] {
      if k == 5 {
        assert f[k] == IntToDec(tlen) + "M";
      }
    }
    SplitOnJoin(f, '\t');
  }

  /** FLAG is 0 exactly on the forward strand and 16 otherwise, as written in the line. */
  lemma FlagText(hit: string)
    ensures NatToDec(Flag(hit)) == (if StartsWith(hit, "+") then "0" else "16")
  {
    assert NatToDec(16) == NatToDec(1) + [DigitChar(6)];
  }

  // ---------------------------------------------------------------------------
  // The mapping file

  /** The line of one hit "rname:<strand><pos>" of an EM line for the query interval
      [qstart, qend): `None` when the hit does not split into exactly two parts at
      ':', when qstart or qend is not an integer, or when no SQ line has named the
      query yet (the exceptions that stop the script, in the order it meets them). */
  function HitLine(qname: Option<string>, qstart: string, qend: string, hit: string): Option<string>
  {
    var parts := SplitOn(hit, ':');
    if |parts| != 2 then None
    else match (ParsePyInt(qstart), ParsePyInt(qend), qname)
      case (Some(s), Some(e), Some(q)) => Some(SamLine(q, parts[0], parts[1], e - s))
      case _ => None
  }

  /** What the script has printed so far, and whether an exception stopped it. */
  datatype Printed = Printed(lines: seq<string>, stopped: bool)

  /** The lines of the hits of one EM line, in order, up to the first that fails. */
  function HitLines(qname: Option<string>, qstart: string, qend: string, hits: seq<string>): Printed
  {
    if |hits| == 0 then Printed([], false)
    else
      var before := HitLines(qname, qstart, qend, hits[..|hits| - 1]);
      if before.stopped then before
      else match HitLine(qname, qstart, qend, hits[|hits| - 1])
        case None => Printed(before.lines, true)
        case Some(l) => Printed(before.lines + [l], false)
  }

  /** The state the loop over the lines carries: the current query name and what has
      been printed. */
  datatype State = State(qname: Option<string>, printed: seq<string>, stopped: bool)

  /** One line of the mapping file: an SQ line of three fields sets the query name,
      an EM line of at least five fields prints its hits (the fields after the
      fourth), and any other line is skipped. An SQ line of another size or an EM
      line of fewer fields stops the script. */
  function Step(st: State, line: string): State
  {
    if StartsWith(line, "SQ") then
      var f := PySplit(line);
      if |f| != 3 then st.(stopped := true) else st.(qname := Some(f[1]))
    else if StartsWith(line, "EM") then
      var f := PySplit(line);
      if |f| < 5 then st.(stopped := true)
      else
        var h := HitLines(st.qname, f[1], f[2], f[4..]);
        State(st.qname, st.printed + h.lines, h.stopped)
    else st
  }

  /** The loop over the lines of the mapping file. */
  function Mapped(lines: seq<string>): State
  {
    if |lines| == 0 then State(None, [], false)
    else
      var st := Mapped(lines[..|lines| - 1]);
      if st.stopped then st else Step(st, lines[|lines| - 1])
  }

  /** The header: one @SQ line per FASTA record (name, length). */
  function Header(refs: seq<(string, nat)>): (h: seq<string>)
    ensures |h| == |refs|
  {
    seq(|refs|, k requires 0 <= k < |refs| => HeaderLine(refs[k].0, refs[k].1))
  }

  /** The hits of one EM line, printed one by one. */
  method PrintHits(qname: Option<string>, qstart: string, qend: string, hits: seq<string>)
    returns (printed: seq<string>, stopped: bool)
    ensures Printed(printed, stopped) == HitLines(qname, qstart, qend, hits)
  {
    printed, stopped := [], false;
    for i := 0 to |hits|
      invariant HitLines(qname, qstart, qend, hits[..i]) == Printed(printed, false)
    {
      assert hits[..i + 1][..i] == hits[..i];
      var parts := SplitOn(hits[i], ':');
      var s, e := ParsePyInt(qstart), ParsePyInt(qend);
      if |parts| != 2 || s.None? || e.None? || qname.None? {
        HitLinesStopped(qname, qstart, qend, hits, i + 1);
        return printed, true;
      }
      printed := printed + [SamLine(qname.value, parts[0], parts[1], e.value - s.value)];
    }
    assert hits[..|hits|] == hits;
  }

  /** The script: the header lines, then the lines of every hit, carrying the query
      name from SQ line to SQ line. */
  method FastmapToSamLines(refs: seq<(string, nat)>, lines: seq<string>) returns (out: seq<string>, stopped: bool)
    ensures out == Header(refs) + Mapped(lines).printed && stopped == Mapped(lines).stopped
  {
    out := [];
    for k := 0 to |refs|
      invariant out == Header(refs[..k])
    {
      out := out + [HeaderLine(refs[k].0, refs[k].1)];
    }
    assert refs[..|refs|] == refs;
    var qname: Option<string> := None;
    var printed: seq<string> := [];
    stopped := false;
    for i := 0 to |lines|
      invariant Mapped(lines[..i]) == State(qname, printed, false)
    {
      assert lines[..i + 1][..i] == lines[..i];
      var line := lines[i];
      if StartsWith(line, "SQ") {
        var f := PySplit(line);
        if |f| != 3 {
          MappedStopped(lines, i + 1);
          return out + printed, true;
        }
        qname := Some(f[1]);
      } else if StartsWith(line, "EM") {
        var f := PySplit(line);
        if |f| < 5 {
          MappedStopped(lines, i + 1);
          return out + printed, true;
        }
        var more, failed := PrintHits(qname, f[1], f[2], f[4..]);
        printed := printed + more;
        if failed {
          MappedStopped(lines, i + 1);
          return out + printed, true;
        }
      }
    }
    assert lines[..|lines|] == lines;
    out := out + printed;
  }

  /** Once a hit fails, the later hits print nothing. */
  lemma {:induction false} HitLinesStopped(qname: Option<string>, qstart: string, qend: string, hits: seq<string>, n: nat)
    requires n <= |hits| && HitLines(qname, qstart, qend, hits[..n]).stopped
    ensures HitLines(qname, qstart, qend, hits) == HitLines(qname, qstart, qend, hits[..n])
    decreases |hits| - n
  {
    if n < |hits| {
      assert hits[..n + 1][..n] == hits[..n];
      HitLinesStopped(qname, qstart, qend, hits, n + 1);
    } else {
      assert hits[..n] == hits;
    }
  }

  /** Once a line stops the script, the later lines print nothing. */
  lemma {:induction false} MappedStopped(lines: seq<string>, n: nat)
    requires n <= |lines| && Mapped(lines[..n]).stopped
    ensures Mapped(lines) == Mapped(lines[..n])
    decreases |lines| - n
  {
    if n < |lines| {
      assert lines[..n + 1][..n] == lines[..n];
      MappedStopped(lines, n + 1);
    } else {
      assert lines[..n] == lines;
    }
  }

  /** A well-formed hit: a reference name and a strand-and-position, one ':' between. */
  predicate WellFormedHit(hit: string)
  {
    |SplitOn(hit, ':')| == 2
  }

  /** The line of a well-formed hit for query q and length tlen. */
  function HitSam(q: string, tlen: int, hit: string): string
    requires WellFormedHit(hit)
  {
    var parts := SplitOn(hit, ':');
    SamLine(q, parts[0], parts[1], tlen)
  }

  /** When every hit has a line, the hits print those lines, in order. */
  lemma {:induction false} HitLinesAll(qname: Option<string>, qstart: string, qend: string, hits: seq<string>)
    requires forall k :: 0 <= k < |hits| ==> HitLine(qname, qstart, qend, hits[k]).Some?
    ensures var p := HitLines(qname, qstart, qend, hits);
      !p.stopped && |p.lines| == |hits| &&
      forall k :: 0 <= k < |hits| ==> p.lines[k] == HitLine(qname, qstart, qend, hits[k]).value
    decreases |hits|
  {
    if |hits| > 0 {
      var n := |hits|;
      var init := hits[..n - 1];
      assert forall k :: 0 <= k < |init| ==> init[k] == hits[k];
      HitLinesAll(qname, qstart, qend, init);
      var before := HitLines(qname, qstart, qend, init);
      var p := HitLines(qname, qstart, qend, hits);
      var last := HitLine(qname, qstart, qend, hits[n - 1]);
      assert p == Printed(before.lines + [last.value], false);
      forall k | 0 <= k < n ensures p.lines[k] == HitLine(qname, qstart, qend, hits[k]).value {
        if k < n - 1 {
          assert p.lines[k] == before.lines[k];
        }
      }
    }
  }

  /** One line per hit: for a named query and an integer interval, every hit of an EM
      line that splits at ':' into a reference name and a position prints exactly
      one line, in order, with TLEN = qend - qstart. */
  lemma OneLinePerHit(q: string, qstart: string, qend: string, hits: seq<string>)
    requires ParsePyInt(qstart).Some? && ParsePyInt(qend).Some?
    requires forall k :: 0 <= k < |hits| ==> WellFormedHit(hits[k])
    ensures var p := HitLines(Some(q), qstart, qend, hits);
      var tlen := ParsePyInt(qend).value - ParsePyInt(qstart).value;
      !p.stopped && |p.lines| == |hits| &&
      forall k :: 0 <= k < |hits| ==> p.lines[k] == HitSam(q, tlen, hits[k])
  {
    var tlen := ParsePyInt(qend).value - ParsePyInt(qstart).value;
    forall k | 0 <= k < |hits| ensures HitLine(Some(q), qstart, qend, hits[k]) == Some(HitSam(q, tlen, hits[k])) {
    }
    HitLinesAll(Some(q), qstart, qend, hits);
  }

  /** The name of the last SQ line of three fields, if any: the query the script has
      named by the end of those lines. */
  function LastQuery(lines: seq<string>): Option<string>
  {
    if |lines| == 0 then None
    else
      var l := lines[|lines| - 1];
      if StartsWith(l, "SQ") && |PySplit(l)| == 3 then Some(PySplit(l)[1]) else LastQuery(lines[..|lines| - 1])
  }

  /** The query name the hits are printed with is that of the latest SQ line. */
  lemma {:induction false} QueryIsLastSq(lines: seq<string>)
    requires !Mapped(lines).stopped
    ensures Mapped(lines).qname == LastQuery(lines)
    decreases |lines|
  {
    if |lines| > 0 {
      QueryIsLastSq(lines[..|lines| - 1]);
    }
  }
}
