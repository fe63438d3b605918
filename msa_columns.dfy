/** The column array of a multiple sequence alignment (MSA), built by `construct_col`
    in scripts/create_col.py and by its older copy `constructo_col` in create_col.py.
    An MSA is a list of rows of equal width over the alphabet plus the gap '-'. The
    text T is the rows without their gaps, each closed by '$', followed by '#'; for
    every suffix-array rank i, C[i] is the alignment column of the character before
    suffix sa[i] (the BWT character), or |msa| + 1 when that character is the final
    '#'. A Python exception (a missing dictionary key, an index out of range) is the
    result `None`. */
module MsaColumns {
  import opened Wrappers
  import opened Text

  const GAP: char := '-'
  const END: char := '$'
  const LAST: char := '#'

  // ---------------------------------------------------------------------------
  // Rows without their gaps

  /** The columns below n of a row that hold no gap, in order. */
  function Cols(row: string, n: nat): (cs: seq<nat>)
    requires n <= |row|
    ensures |cs| <= n
  {
    if n == 0 then [] else Cols(row, n - 1) + (if row[n - 1] != GAP then [n - 1] else [])
  }

  /** A row with its gaps removed (`replace('-', '')`). */
  function Ungap(s: string): (u: string)
    ensures |u| <= |s|
  {
    if |s| == 0 then [] else Ungap(s[..|s| - 1]) + (if s[|s| - 1] != GAP then [s[|s| - 1]] else [])
  }

  /** The gap-free columns of a row, read in order, spell the row without its gaps,
      and they ascend strictly. */
  lemma {:induction false} ColsSpell(row: string, n: nat)
    requires n <= |row|
    ensures |Cols(row, n)| == |Ungap(row[..n])|
    ensures forall p :: 0 <= p < |Cols(row, n)| ==> Cols(row, n)[p] < n && row[Cols(row, n)[p]] == Ungap(row[..n])[p]
    ensures forall p, q :: 0 <= p < q < |Cols(row, n)| ==> Cols(row, n)[p] < Cols(row, n)[q]
    decreases n
  {
    if n > 0 {
      ColsSpell(row, n - 1);
      assert row[..n][..n - 1] == row[..n - 1];
    }
  }

  /** Removing gaps commutes with concatenation. */
  lemma {:induction false} UngapConcat(a: string, b: string)
    ensures Ungap(a + b) == Ungap(a) + Ungap(b)
    decreases |b|
  {
    if |b| > 0 {
      var b' := b[..|b| - 1];
      var x := b[|b| - 1];
      var tail := if x != GAP then [x] else [];
      assert (a + b)[..|a + b| - 1] == a + b' && (a + b)[|a + b| - 1] == x;
      assert Ungap(a + b) == Ungap(a + b') + tail;
      assert Ungap(b) == Ungap(b') + tail;
      UngapConcat(a, b');
    } else {
      assert a + b == a;
    }
  }

  /** A text without gaps or '$' keeps having none once its gaps are removed. */
  lemma {:induction false} UngapKeepsOut(s: string, c: char)
    requires c !in s
    ensures c !in Ungap(s)
    decreases |s|
  {
    if |s| > 0 {
      UngapKeepsOut(s[..|s| - 1], c);
    }
  }

  // ---------------------------------------------------------------------------
  // parse_msa: (row, position in the gap-free row) -> alignment column

  /** `m` with the entries of row r added for its first n columns: the p-th non-gap
      character sits in column Cols(row, n)[p]. */
  function Fill(m: map<(int, int), nat>, r: int, row: string, n: nat): map<(int, int), nat>
    requires n <= |row|
  {
    if n == 0 then m
    else if row[n - 1] != GAP then Fill(m, r, row, n - 1)[(r, |Cols(row, n - 1)|) := n - 1]
    else Fill(m, r, row, n - 1)
  }

  /** The dictionary `parse_msa` builds from the first n rows. */
  function ColumnMap(rows: seq<string>, n: nat): map<(int, int), nat>
    requires n <= |rows|
  {
    if n == 0 then map[] else Fill(ColumnMap(rows, n - 1), n - 1, rows[n - 1], |rows[n - 1]|)
  }

  lemma {:induction false} FillAt(m: map<(int, int), nat>, r: int, row: string, n: nat, r': int, p: int)
    requires n <= |row|
    ensures (r', p) in Fill(m, r, row, n) <==> (r', p) in m || (r' == r && 0 <= p < |Cols(row, n)|)
    ensures r' == r && 0 <= p < |Cols(row, n)| ==> Fill(m, r, row, n)[(r', p)] == Cols(row, n)[p]
    ensures !(r' == r && 0 <= p < |Cols(row, n)|) && (r', p) in m ==> Fill(m, r, row, n)[(r', p)] == m[(r', p)]
    decreases n
  {
    if n > 0 {
      FillAt(m, r, row, n - 1, r', p);
    }
  }

  /** The dictionary holds one key per non-gap character of each row: the row and the
      character's place in the gap-free row; its value is the column holding it. */
  lemma {:induction false} ColumnMapAt(rows: seq<string>, n: nat, r: int, p: int)
    requires n <= |rows|
    ensures (r, p) in ColumnMap(rows, n) <==> 0 <= r < n && 0 <= p < |Ungap(rows[r])|
    ensures (r, p) in ColumnMap(rows, n) ==>
      var c := ColumnMap(rows, n)[(r, p)];
      c < |rows[r]| && rows[r][c] == Ungap(rows[r])[p]
    decreases n
  {
    if n > 0 {
      ColumnMapAt(rows, n - 1, r, p);
      var row := rows[n - 1];
      FillAt(ColumnMap(rows, n - 1), n - 1, row, |row|, r, p);
      ColsSpell(row, |row|);
      assert row[..|row|] == row;
    }
  }

  /** Row r with '$' appended. */
  function Ended(msa: seq<string>): (rows: seq<string>)
    ensures |rows| == |msa|
  {
    seq(|msa|, r requires 0 <= r < |msa| => msa[r] + [END])
  }

  /** `parse_msa` (scripts/create_col.py) and `parese_msa_bis` (create_col.py): appends
      '$' to every row of the caller's list, in place, and maps (row, place in the
      gap-free row) to the column, the '$' included. */
  method ParseMsa(msa: array<string>) returns (posToCol: map<(int, int), nat>)
    modifies msa
    ensures msa[..] == Ended(old(msa[..]))
    ensures posToCol == ColumnMap(msa[..], msa.Length)
  {
    ghost var rows := Ended(msa[..]);
    ghost var original := msa[..];
    posToCol := map[];
    for i := 0 to msa.Length
      invariant msa[..] == rows[..i] + original[i..]
      invariant posToCol == ColumnMap(rows, i)
    {
      posToCol := ParseNextRow(msa, i, posToCol);
      assert msa[..] == rows[..i + 1] + original[i + 1..];
    }
    assert msa[..] == rows;
  }

  /** One turn of the outer loop of `parse_msa`: row i gets its '$' and its entries. */
  method ParseNextRow(msa: array<string>, i: nat, m: map<(int, int), nat>) returns (m': map<(int, int), nat>)
    requires i < msa.Length
    modifies msa
    ensures msa[..] == old(msa[..])[i := old(msa[i]) + [END]]
    ensures m' == Fill(m, i, msa[i], |msa[i]|)
  {
    msa[i] := msa[i] + [END];
    m' := ParseRow(m, i, msa[i]);
  }

  /** The inner loop of `parse_msa`: the entries of one row. */
  method ParseRow(m: map<(int, int), nat>, r: nat, row: string) returns (m': map<(int, int), nat>)
    ensures m' == Fill(m, r, row, |row|)
  {
    m' := m;
    var pos := 0;
    for j := 0 to |row|
      invariant pos == |Cols(row, j)|
      invariant m' == Fill(m, r, row, j)
    {
      if row[j] != GAP {
        m' := m'[(r, pos) := j];
        pos := pos + 1;
      }
    }
  }

  /** `parese_msa` (create_col.py) on the sequences of the FASTA file: the same
      dictionary, without the '$'. */
  method ParseMsaFile(sequences: seq<string>) returns (posToCol: map<(int, int), nat>)
    ensures posToCol == ColumnMap(sequences, |sequences|)
  {
    posToCol := map[];
    for seqId := 0 to |sequences|
      invariant posToCol == ColumnMap(sequences, seqId)
    {
      posToCol := ParseRow(posToCol, seqId, sequences[seqId]);
    }
  }

  /** Appending '$' to every row adds one place per row, the '$' itself, in the
      column after the row, and keeps every other entry: the dictionary of
      `parese_msa_bis` extends the one of `parese_msa`. */
  lemma EndedColumnMap(msa: seq<string>, r: int, p: int)
    ensures var m, m' := ColumnMap(msa, |msa|), ColumnMap(Ended(msa), |msa|);
      ((r, p) in m' <==> (r, p) in m || (0 <= r < |msa| && p == |Ungap(msa[r])|))
      && ((r, p) in m ==> m'[(r, p)] == m[(r, p)])
      && (0 <= r < |msa| && p == |Ungap(msa[r])| ==> m'[(r, p)] == |msa[r]|)
  {
    var rows := Ended(msa);
    ColumnMapAt(msa, |msa|, r, p);
    ColumnMapAt(rows, |msa|, r, p);
    if 0 <= r < |msa| {
      var row := msa[r];
      assert rows[r] == row + [END];
      EndedUngap(row);
      ColsEnded(row);
      ColsSpell(row, |row|);
      assert row[..|row|] == row;
      if 0 <= p < |Cols(row, |row|)| {
        ColumnMapValue(msa, |msa|, r, p);
        ColumnMapValue(rows, |msa|, r, p);
      } else if p == |Cols(row, |row|)| {
        ColumnMapValue(rows, |msa|, r, p);
      }
    }
  }

  lemma EndedUngap(row: string)
    ensures Ungap(row + [END]) == Ungap(row) + [END]
  {
    assert (row + [END])[..|row|] == row;
  }

  lemma ColsEnded(row: string)
    ensures Cols(row + [END], |row| + 1) == Cols(row, |row|) + [|row|]
  {
    ColsPrefix(row, [END], |row|);
  }

  lemma {:induction false} ColsPrefix(row: string, more: string, n: nat)
    requires n <= |row|
    ensures Cols(row + more, n) == Cols(row, n)
    decreases n
  {
    if n > 0 {
      ColsPrefix(row, more, n - 1);
    }
  }

  /** The value of a key is the column Cols gives for it. */
  lemma {:induction false} ColumnMapValue(rows: seq<string>, n: nat, r: int, p: int)
    requires n <= |rows| && 0 <= r < n && 0 <= p < |Cols(rows[r], |rows[r]|)|
    ensures (r, p) in ColumnMap(rows, n) && ColumnMap(rows, n)[(r, p)] == Cols(rows[r], |rows[r]|)[p]
    decreases n
  {
    var row := rows[n - 1];
    FillAt(ColumnMap(rows, n - 1), n - 1, row, |row|, r, p);
    if r < n - 1 {
      ColumnMapValue(rows, n - 1, r, p);
    }
  }
  // ---------------------------------------------------------------------------
  // The text T and map_msa_to_T

  /** The rows without their gaps. */
  function Pieces(rows: seq<string>): (ps: seq<string>)
    ensures |ps| == |rows|
  {
    seq(|rows|, r requires 0 <= r < |rows| => Ungap(rows[r]))
  }

  function Concat(ps: seq<string>): string
  {
    if |ps| == 0 then [] else ps[0] + Concat(ps[1..])
  }

  /** Where piece r starts in the concatenation of the pieces. */
  function Starts(ps: seq<string>, r: nat): nat
    requires r <= |ps|
  {
    if r == 0 then 0 else |ps[0]| + Starts(ps[1..], r - 1)
  }

  lemma {:induction false} StartsSnoc(ps: seq<string>, r: nat)
    requires r < |ps|
    ensures Starts(ps, r + 1) == Starts(ps, r) + |ps[r]|
    decreases r
  {
    if r > 0 {
      StartsSnoc(ps[1..], r - 1);
    }
  }

  lemma {:induction false} ConcatLength(ps: seq<string>)
    ensures |Concat(ps)| == Starts(ps, |ps|)
    decreases |ps|
  {
    if |ps| > 0 {
      ConcatLength(ps[1..]);
    }
  }

  /** Character c of piece r is at Starts(ps, r) + c of the concatenation. */
  lemma {:induction false} ConcatAt(ps: seq<string>, r: nat, c: nat)
    requires r < |ps| && c < |ps[r]|
    ensures Starts(ps, r) + c < |Concat(ps)| && Concat(ps)[Starts(ps, r) + c] == ps[r][c]
    decreases r
  {
    var rest := ps[1..];
    assert Concat(ps) == ps[0] + Concat(rest);
    if r > 0 {
      assert rest[r - 1] == ps[r];
      ConcatAt(rest, r - 1, c);
      assert Starts(ps, r) == |ps[0]| + Starts(rest, r - 1);
    }
  }

  /** T of `construct_col`: the rows joined by '$', without gaps, then "$#". */
  function MsaText(msa: seq<string>): string
  {
    Ungap(JoinWith(msa, [END])) + [END, LAST]
  }

  lemma {:induction false} JoinEnded(msa: seq<string>)
    requires |msa| > 0
    ensures JoinWith(msa, [END]) + [END] == Concat(Ended(msa))
    decreases |msa|
  {
    assert Ended(msa)[0] == msa[0] + [END];
    if |msa| > 1 {
      JoinEnded(msa[1..]);
      assert Ended(msa)[1..] == Ended(msa[1..]);
    } else {
      assert Concat(Ended(msa)[1..]) == [];
    }
  }

  lemma {:induction false} UngapConcatAll(ps: seq<string>)
    ensures Ungap(Concat(ps)) == Concat(Pieces(ps))
    decreases |ps|
  {
    if |ps| > 0 {
      UngapConcatAll(ps[1..]);
      UngapConcat(ps[0], Concat(ps[1..]));
      assert Pieces(ps)[1..] == Pieces(ps[1..]);
    }
  }

  /** T is the gap-free rows, each closed by '$', then '#'. */
  lemma TextIsConcat(msa: seq<string>)
    requires |msa| > 0
    ensures MsaText(msa) == Concat(Pieces(Ended(msa))) + [LAST]
  {
    var j := JoinWith(msa, [END]);
    var e := Ended(msa);
    UngapConcat(j, [END]);
    assert Ungap([END]) == [END];
    var u := Ungap(j + [END]);
    assert u == Ungap(j) + [END];
    JoinEnded(msa);
    UngapConcatAll(e);
    assert u == Concat(Pieces(e));
    assert MsaText(msa) == u + [LAST];
  }

  /** `m` with the T positions of row r added for its first n columns: its p-th non-gap
      character is at base + p. */
  function TFill(m: map<(int, int), nat>, r: int, row: string, base: nat, n: nat): map<(int, int), nat>
    requires n <= |row|
  {
    if n == 0 then m
    else if row[n - 1] != GAP then TFill(m, r, row, base, n - 1)[(r, |Cols(row, n - 1)|) := base + |Cols(row, n - 1)|]
    else TFill(m, r, row, base, n - 1)
  }

  /** The dictionary of `map_msa_to_T` after the first n rows. */
  function TextMap(rows: seq<string>, n: nat): map<(int, int), nat>
    requires n <= |rows|
  {
    if n == 0 then map[]
    else TFill(TextMap(rows, n - 1), n - 1, rows[n - 1], Starts(Pieces(rows), n - 1), |rows[n - 1]|)
  }

  /** Everything `map_msa_to_T` returns; `None` for an empty MSA, where `msa[N-1]` fails. */
  function MsaToT(rows: seq<string>): Option<map<(int, int), nat>>
  {
    if |rows| == 0 then None
    else
      var n := |rows|;
      Some(TextMap(rows, n)[(n - 1, |rows[n - 1]| - 1) := Starts(Pieces(rows), n)])
  }

  /** `map_msa_to_T` (scripts/create_col.py). */
  method MapMsaToT(msa: seq<string>) returns (msaToT: Option<map<(int, int), nat>>)
    ensures msaToT == MsaToT(msa)
  {
    var m := map[];
    var n := |msa|;
    var pos := 0;
    for i := 0 to n
      invariant pos == Starts(Pieces(msa), i)
      invariant m == TextMap(msa, i)
    {
      m, pos := MapRow(m, i, msa[i], pos);
      StartsSnoc(Pieces(msa), i);
    }
    if n == 0 {
      return None;
    }
    m := m[(n - 1, |msa[n - 1]| - 1) := pos];
    return Some(m);
  }

  /** The inner loop of `map_msa_to_T`: the T positions of one row. */
  method MapRow(m: map<(int, int), nat>, r: nat, row: string, base: nat) returns (m': map<(int, int), nat>, pos: nat)
    ensures m' == TFill(m, r, row, base, |row|)
    ensures pos == base + |Ungap(row)|
  {
    m', pos := m, base;
    var col := 0;
    for j := 0 to |row|
      invariant col == |Cols(row, j)| && pos == base + col
      invariant m' == TFill(m, r, row, base, j)
    {
      if row[j] != GAP {
        m' := m'[(r, col) := pos];
        col := col + 1;
        pos := pos + 1;
      }
    }
    ColsSpell(row, |row|);
    assert row[..|row|] == row;
  }

  lemma {:induction false} TFillAt(m: map<(int, int), nat>, r: int, row: string, base: nat, n: nat, r': int, p: int)
    requires n <= |row|
    ensures (r', p) in TFill(m, r, row, base, n) <==> (r', p) in m || (r' == r && 0 <= p < |Cols(row, n)|)
    ensures r' == r && 0 <= p < |Cols(row, n)| ==> TFill(m, r, row, base, n)[(r', p)] == base + p
    ensures !(r' == r && 0 <= p < |Cols(row, n)|) && (r', p) in m ==> TFill(m, r, row, base, n)[(r', p)] == m[(r', p)]
    decreases n
  {
    if n > 0 {
      TFillAt(m, r, row, base, n - 1, r', p);
    }
  }

  /** Before its last key is set, the dictionary of `map_msa_to_T` numbers the
      non-gap characters row by row: place p of row r gets Starts(r) + p. */
  lemma {:induction false} TextMapAt(rows: seq<string>, n: nat, r: int, p: int)
    requires n <= |rows|
    ensures (r, p) in TextMap(rows, n) <==> 0 <= r < n && 0 <= p < |Ungap(rows[r])|
    ensures (r, p) in TextMap(rows, n) ==> TextMap(rows, n)[(r, p)] == Starts(Pieces(rows), r) + p
    decreases n
  {
    if n > 0 {
      TextMapAt(rows, n - 1, r, p);
      var row := rows[n - 1];
      TFillAt(TextMap(rows, n - 1), n - 1, row, Starts(Pieces(rows), n - 1), |row|, r, p);
      ColsSpell(row, |row|);
      assert row[..|row|] == row;
    }
  }

  /** On the rows `parse_msa` left behind (each closed by '$'), `map_msa_to_T` maps
      every (row, place) to the position of that character in T, except the last key,
      which is set to the final '#'. */
  lemma MsaToTPoints(msa: seq<string>, r: int, p: int)
    requires |msa| > 0
    ensures var rows, t := Ended(msa), MsaText(msa);
      var m, last := MsaToT(rows).value, (|msa| - 1, |rows[|msa| - 1]| - 1);
      last in m && m[last] == |t| - 1 && t[|t| - 1] == LAST &&
      ((r, p) in m && (r, p) != last ==>
        0 <= r < |msa| && 0 <= p < |Pieces(rows)[r]| && m[(r, p)] < |t| && t[m[(r, p)]] == Pieces(rows)[r][p])
  {
    var rows, t := Ended(msa), MsaText(msa);
    var ps := Pieces(rows);
    var m, last := MsaToT(rows).value, (|msa| - 1, |rows[|msa| - 1]| - 1);
    TextIsConcat(msa);
    ConcatLength(ps);
    TextMapAt(rows, |rows|, r, p);
    if (r, p) in m && (r, p) != last {
      assert (r, p) in TextMap(rows, |rows|);
      ConcatAt(ps, r, p);
    }
  }
  // ---------------------------------------------------------------------------
  // EP, find_row and find_P

  /** One past the index of every '$' of t, indices counted from off. */
  function Ends(t: string, off: nat): seq<nat>
  {
    if |t| == 0 then [] else (if t[0] == END then [off + 1] else []) + Ends(t[1..], off + 1)
  }

  lemma {:induction false} EndsAppend(a: string, b: string, off: nat)
    ensures Ends(a + b, off) == Ends(a, off) + Ends(b, off + |a|)
    decreases |a|
  {
    if |a| == 0 {
      assert a + b == b;
    } else {
      var head: seq<nat> := if a[0] == END then [off + 1] else [];
      assert (a + b)[0] == a[0] && (a + b)[1..] == a[1..] + b;
      assert Ends(a + b, off) == head + Ends(a[1..] + b, off + 1);
      assert Ends(a, off) == head + Ends(a[1..], off + 1);
      EndsAppend(a[1..], b, off + 1);
      assert off + 1 + |a[1..]| == off + |a|;
    }
  }

  /** The EP loop of `construct_col`: 0, then one past every '$' of T. */
  method EndPositions(t: string) returns (ep: seq<nat>)
    ensures ep == [0] + Ends(t, 0)
  {
    ep := [0];
    for i := 0 to |t|
      invariant ep == [0] + Ends(t[..i], 0)
    {
      assert t[..i + 1] == t[..i] + [t[i]];
      EndsAppend(t[..i], [t[i]], 0);
      if t[i] == END {
        ep := ep + [i + 1];
      }
    }
    assert t[..|t|] == t;
  }

  /** A gap-free row closed by '$' and holding no other '$'. */
  predicate Closed(x: string)
  {
    |x| > 0 && x[|x| - 1] == END && END !in x[..|x| - 1]
  }

  lemma {:induction false} EndsNone(t: string, off: nat)
    requires END !in t
    ensures Ends(t, off) == []
    decreases |t|
  {
    if |t| > 0 {
      EndsNone(t[1..], off + 1);
    }
  }

  lemma EndsPiece(x: string, off: nat)
    requires Closed(x)
    ensures Ends(x, off) == [off + |x|]
  {
    var body := x[..|x| - 1];
    assert x == body + [END];
    EndsAppend(body, [END], off);
    EndsNone(body, off);
    var last: string := [END];
    assert Ends(last, off + |body|) == [off + |body| + 1] + Ends(last[1..], off + |body| + 1);
    assert last[1..] == [];
  }

  /** In a concatenation of closed rows, the '$'s end the rows. */
  lemma {:induction false} EndsConcat(ps: seq<string>, off: nat)
    requires forall r :: 0 <= r < |ps| ==> Closed(ps[r])
    ensures Ends(Concat(ps), off) == seq(|ps|, r requires 0 <= r < |ps| => off + Starts(ps, r + 1))
    decreases |ps|
  {
    if |ps| > 0 {
      var rest := ps[1..];
      var first := ps[0];
      assert Concat(ps) == first + Concat(rest);
      EndsAppend(first, Concat(rest), off);
      EndsPiece(first, off);
      EndsConcat(rest, off + |first|);
      var e := Ends(Concat(ps), off);
      var tail := Ends(Concat(rest), off + |first|);
      assert e == [off + |first|] + tail;
      forall r | 0 <= r < |ps| ensures e[r] == off + Starts(ps, r + 1) {
        if r > 0 {
          assert e[r] == tail[r - 1] == off + |first| + Starts(rest, r);
        }
      }
    } else {
      assert Concat(ps) == [];
    }
  }

  /** The rows `parse_msa` closes are closed once their gaps are removed, unless a row
      already held a '$'. */
  lemma PiecesClosed(msa: seq<string>)
    requires forall r :: 0 <= r < |msa| ==> END !in msa[r]
    ensures forall r :: 0 <= r < |msa| ==> Closed(Pieces(Ended(msa))[r])
  {
    forall r | 0 <= r < |msa| ensures Closed(Pieces(Ended(msa))[r]) {
      EndedUngap(msa[r]);
      UngapKeepsOut(msa[r], END);
      var x := Pieces(Ended(msa))[r];
      assert x == Ungap(msa[r]) + [END];
      assert x[..|x| - 1] == Ungap(msa[r]);
    }
  }

  /** EP lists where each row starts in T, and then the index of the final '#'. */
  lemma EndPositionsOfText(msa: seq<string>)
    requires |msa| > 0 && forall r :: 0 <= r < |msa| ==> END !in msa[r]
    ensures var ps, ep := Pieces(Ended(msa)), [0] + Ends(MsaText(msa), 0);
      |ep| == |msa| + 1 && forall r :: 0 <= r <= |msa| ==> ep[r] == Starts(ps, r)
  {
    var ps := Pieces(Ended(msa));
    PiecesClosed(msa);
    EndsOfText(msa);
    EndsStarts(ps);
  }

  lemma EndsOfText(msa: seq<string>)
    requires |msa| > 0
    ensures Ends(MsaText(msa), 0) == Ends(Concat(Pieces(Ended(msa))), 0)
  {
    var c := Concat(Pieces(Ended(msa)));
    TextIsConcat(msa);
    EndsAppend(c, [LAST], 0);
    EndsNone([LAST], |c|);
  }

  lemma EndsStarts(ps: seq<string>)
    requires forall r :: 0 <= r < |ps| ==> Closed(ps[r])
    ensures var ep := [0] + Ends(Concat(ps), 0);
      |ep| == |ps| + 1 && forall r :: 0 <= r <= |ps| ==> ep[r] == Starts(ps, r)
  {
    EndsConcat(ps, 0);
    var e := Ends(Concat(ps), 0);
    var ep := [0] + e;
    forall r | 0 < r <= |ps| ensures ep[r] == Starts(ps, r) {
      assert ep[r] == e[r - 1];
    }
  }

  predicate Ascending(ep: seq<nat>)
  {
    forall a, b :: 0 <= a < b < |ep| ==> ep[a] < ep[b]
  }

  /** The first index from `from` on whose entry exceeds p. */
  function FirstAbove(ep: seq<nat>, p: int, from: nat): (u: Option<nat>)
    requires from <= |ep|
    ensures u.Some? ==> from <= u.value < |ep| && ep[u.value] > p
    decreases |ep| - from
  {
    if from == |ep| then None else if ep[from] > p then Some(from) else FirstAbove(ep, p, from + 1)
  }

  /** `find_row` (`finfSeqn` in create_col.py): the index before the first entry above
      p, or `None` (the function falls off its end) when there is none. */
  function FindRow(ep: seq<nat>, p: int): Option<int>
  {
    var u := FirstAbove(ep, p, 0);
    if u.None? then None else Some(u.value - 1)
  }

  /** `find_P` (`findP` in create_col.py): p minus the entry before the first entry
      above p; when that is entry 0, Python's `EP[-1]` is the last entry. */
  function FindP(ep: seq<nat>, p: int): Option<int>
  {
    var u := FirstAbove(ep, p, 0);
    if u.None? then None else Some(p - ep[if u.value == 0 then |ep| - 1 else u.value - 1])
  }

  /** On ascending entries the scan finds an entry above p exactly when the last one
      is, and the entry before the one it finds is at most p. */
  lemma {:induction false} FirstAboveIs(ep: seq<nat>, p: int, from: nat)
    requires from <= |ep| && Ascending(ep)
    ensures FirstAbove(ep, p, from).Some? <==> from < |ep| && p < ep[|ep| - 1]
    ensures FirstAbove(ep, p, from).Some? && FirstAbove(ep, p, from).value > from ==>
      ep[FirstAbove(ep, p, from).value - 1] <= p
    decreases |ep| - from
  {
    if from < |ep| && ep[from] <= p {
      FirstAboveIs(ep, p, from + 1);
    }
  }

  /** For EP[0] <= p < the last entry, `find_row` gives the u with EP[u] <= p < EP[u + 1]
      and `find_P` gives p - EP[u]; below EP[0] `find_row` gives -1. */
  lemma FindRowBetween(ep: seq<nat>, p: int)
    requires |ep| > 0 && Ascending(ep)
    ensures p < ep[0] ==> FindRow(ep, p) == Some(-1)
    ensures ep[0] <= p < ep[|ep| - 1] ==>
      FindRow(ep, p).Some? && 0 <= FindRow(ep, p).value < |ep| - 1 &&
      ep[FindRow(ep, p).value] <= p < ep[FindRow(ep, p).value + 1] &&
      FindP(ep, p) == Some(p - ep[FindRow(ep, p).value])
    ensures p >= ep[|ep| - 1] ==> FindRow(ep, p).None? && FindP(ep, p).None?
  {
    FirstAboveIs(ep, p, 0);
  }
  // ---------------------------------------------------------------------------
  // construct_col

  /** What `construct_col` returns besides the suffix array: the column array C, the
      row of each BWT character (`seqn`, -1 for the final '#', `None` where `find_row`
      returned nothing) and the BWT itself. */
  datatype Columns = Columns(c: seq<int>, seqn: seq<Option<int>>, bwt: string)

  /** The suffix array has an entry for every position of T, and sa[i] - 1 indexes T
      (the `bwt += T[p]` of the source). */
  predicate SaFits(t: string, sa: seq<nat>)
  {
    |t| <= |sa| && forall i :: 0 <= i < |t| ==> sa[i] <= |t|
  }

  /** T[sa[i] - 1], with Python's T[-1] (the last character) when sa[i] is 0. */
  function BwtChar(t: string, s: nat): char
    requires 0 < |t| && s <= |t|
  {
    if s == 0 then t[|t| - 1] else t[s - 1]
  }

  /** The column of rank i: |msa| + 1 when its row is -1, else the dictionary entry of
      (row, place); `None` for the `KeyError` of a missing key. */
  function Column(n: nat, m: map<(int, int), nat>, row: Option<int>, place: Option<int>): Option<int>
  {
    if row == Some(-1) then Some(n + 1)
    else if row.Some? && place.Some? && (row.value, place.value) in m then Some(m[(row.value, place.value)])
    else None
  }

  function SeqnOf(ep: seq<nat>, sa: seq<nat>, n: nat): (r: seq<Option<int>>)
    requires n <= |sa|
    ensures |r| == n
  {
    seq(n, i requires 0 <= i < n => FindRow(ep, sa[i] as int - 1))
  }

  function PlacesOf(ep: seq<nat>, sa: seq<nat>, n: nat): (r: seq<Option<int>>)
    requires n <= |sa|
    ensures |r| == n
  {
    seq(n, i requires 0 <= i < n => FindP(ep, sa[i] as int - 1))
  }

  function BwtOf(t: string, sa: seq<nat>): (r: string)
    requires 0 < |t| && SaFits(t, sa)
    ensures |r| == |t|
  {
    seq(|t|, i requires 0 <= i < |t| => BwtChar(t, sa[i]))
  }

  function ColumnList(n: nat, m: map<(int, int), nat>, seqn: seq<Option<int>>, places: seq<Option<int>>): (r: seq<Option<int>>)
    requires |seqn| == |places|
    ensures |r| == |seqn|
  {
    seq(|seqn|, i requires 0 <= i < |seqn| => Column(n, m, seqn[i], places[i]))
  }

  /** Everything `construct_col` computes from the MSA and the suffix array of T. */
  function ColumnsOf(msa: seq<string>, sa: seq<nat>): Option<Columns>
    requires SaFits(MsaText(msa), sa)
  {
    var t := MsaText(msa);
    var ep := [0] + Ends(t, 0);
    var seqn := SeqnOf(ep, sa, |t|);
    var cs := ColumnList(|msa|, ColumnMap(Ended(msa), |msa|), seqn, PlacesOf(ep, sa, |t|));
    if forall i :: 0 <= i < |cs| ==> cs[i].Some? then
      Some(Columns(seq(|cs|, i requires 0 <= i < |cs| => cs[i].value), seqn, BwtOf(t, sa)))
    else None
  }

  /** `construct_col` (scripts/create_col.py; `constructo_col` in create_col.py, which
      returns C and the BWT only). The call to `parse_msa` leaves every row of the
      caller's MSA closed by '$'. */
  method ConstructCol(msa: array<string>, sa: seq<nat>) returns (res: Option<Columns>)
    requires SaFits(MsaText(msa[..]), sa)
    modifies msa
    ensures msa[..] == Ended(old(msa[..]))
    ensures res == ColumnsOf(old(msa[..]), sa)
  {
    ghost var original := msa[..];
    var t := Ungap(JoinWith(msa[..], [END])) + [END, LAST];
    var ep := EndPositions(t);
    var places, seqn, bwt := Locate(t, ep, sa);
    var posToCol := ParseMsa(msa);
    var c := ColumnsFrom(msa.Length, posToCol, seqn, places);
    if c.None? {
      return None;
    }
    return Some(Columns(c.value, seqn, bwt));
  }

  /** The first loop over the ranks: the BWT character, its place and its row. */
  method Locate(t: string, ep: seq<nat>, sa: seq<nat>) returns (places: seq<Option<int>>, seqn: seq<Option<int>>, bwt: string)
    requires 0 < |t| && SaFits(t, sa)
    ensures places == PlacesOf(ep, sa, |t|) && seqn == SeqnOf(ep, sa, |t|) && bwt == BwtOf(t, sa)
  {
    places, seqn, bwt := [], [], [];
    for i := 0 to |t|
      invariant places == PlacesOf(ep, sa, i) && seqn == SeqnOf(ep, sa, i)
      invariant bwt == BwtOf(t, sa)[..i]
    {
      var p: int := sa[i] as int - 1;
      bwt := bwt + [if p < 0 then t[|t| + p] else t[p]];
      places := places + [FindP(ep, p)];
      seqn := seqn + [FindRow(ep, p)];
    }
  }

  /** The second loop over the ranks: the column of each, stopping at a missing key. */
  method ColumnsFrom(n: nat, posToCol: map<(int, int), nat>, seqn: seq<Option<int>>, places: seq<Option<int>>)
    returns (c: Option<seq<int>>)
    requires |seqn| == |places|
    ensures var cs := ColumnList(n, posToCol, seqn, places);
      if forall i :: 0 <= i < |cs| ==> cs[i].Some? then c == Some(seq(|cs|, i requires 0 <= i < |cs| => cs[i].value))
      else c.None?
  {
    ghost var cs := ColumnList(n, posToCol, seqn, places);
    var col := [];
    for i := 0 to |seqn|
      invariant |col| == i && forall k :: 0 <= k < i ==> cs[k].Some? && col[k] == cs[k].value
    {
      if seqn[i] == Some(-1) {
        col := col + [n + 1];
      } else if seqn[i].Some? && places[i].Some? && (seqn[i].value, places[i].value) in posToCol {
        col := col + [posToCol[(seqn[i].value, places[i].value)]];
      } else {
        assert cs[i].None?;
        return None;
      }
    }
    assert col == seq(|cs|, i requires 0 <= i < |cs| => cs[i].value);
    return Some(col);
  }
  // ---------------------------------------------------------------------------
  // What the column array means

  /** An MSA the program can handle: at least one row, and no row holding '$'. */
  predicate WellFormed(msa: seq<string>)
  {
    |msa| > 0 && forall r :: 0 <= r < |msa| ==> END !in msa[r]
  }

  /** The entry of rank i, whose suffix starts at s: for s = 0 the BWT character is
      the final '#', the row -1 and the column |msa| + 1; otherwise the character
      before the suffix lies in gap-free row u, between the starts of rows u and u + 1
      in T, and the column names the very same character of the alignment row
      closed by '$'. */
  predicate Located(msa: seq<string>, t: string, s: nat, c: int, row: Option<int>, b: char)
    requires 0 < |t| && s <= |t|
  {
    if s == 0 then c == |msa| + 1 && row == Some(-1) && b == LAST
    else
      var ps := Pieces(Ended(msa));
      row.Some? && 0 <= row.value < |msa| &&
      Starts(ps, row.value) <= s - 1 < Starts(ps, row.value + 1) &&
      0 <= c <= |msa[row.value]| && b == t[s - 1] && (msa[row.value] + [END])[c] == b
  }

  lemma {:induction false} StartsAscending(ps: seq<string>, a: nat, b: nat)
    requires a < b <= |ps| && forall r :: 0 <= r < |ps| ==> |ps[r]| > 0
    ensures Starts(ps, a) < Starts(ps, b)
    decreases b
  {
    StartsSnoc(ps, b - 1);
    if a < b - 1 {
      StartsAscending(ps, a, b - 1);
    }
  }

  /** EP of a well-formed MSA ascends strictly and ends at the final '#'. */
  lemma EndPositionsAscend(msa: seq<string>)
    requires WellFormed(msa)
    ensures var ep, t := [0] + Ends(MsaText(msa), 0), MsaText(msa);
      Ascending(ep) && |ep| == |msa| + 1 && ep[0] == 0 && ep[|msa|] == |t| - 1
  {
    var ps, t := Pieces(Ended(msa)), MsaText(msa);
    var ep := [0] + Ends(t, 0);
    EndPositionsOfText(msa);
    PiecesClosed(msa);
    forall a, b | 0 <= a < b < |ep| ensures ep[a] < ep[b] {
      StartsAscending(ps, a, b);
    }
    TextIsConcat(msa);
    ConcatLength(ps);
  }

  /** A position p before the final '#' of T lies in exactly one gap-free row u, and
      `find_row`/`find_P` on EP name that row and the place of p in it. */
  lemma LocateInRow(ps: seq<string>, t: string, ep: seq<nat>, p: int)
    requires t == Concat(ps) + [LAST] && |Concat(ps)| == Starts(ps, |ps|)
    requires |ep| == |ps| + 1 && Ascending(ep) && forall r :: 0 <= r <= |ps| ==> ep[r] == Starts(ps, r)
    requires 0 <= p < |t| - 1
    ensures FindRow(ep, p).Some? && FindP(ep, p).Some?
    ensures var u, place := FindRow(ep, p).value, FindP(ep, p).value;
      0 <= u < |ps| && Starts(ps, u) <= p < Starts(ps, u + 1) &&
      place == p - Starts(ps, u) && 0 <= place < |ps[u]| && t[p] == ps[u][place]
  {
    FindRowBetween(ep, p);
    var u := FindRow(ep, p).value;
    var place := p - ep[u];
    assert ep[u] == Starts(ps, u) && ep[u + 1] == Starts(ps, u + 1);
    StartsSnoc(ps, u);
    ConcatAt(ps, u, place);
    assert t[p] == Concat(ps)[p];
  }

  /** The entry of a rank whose suffix starts at s. */
  predicate RankOk(msa: seq<string>, s: nat)
    requires s < |MsaText(msa)|
  {
    var t := MsaText(msa);
    var ep := [0] + Ends(t, 0);
    var row := FindRow(ep, s as int - 1);
    var col := Column(|msa|, ColumnMap(Ended(msa), |msa|), row, FindP(ep, s as int - 1));
    col.Some? && Located(msa, t, s, col.value, row, BwtChar(t, s))
  }

  /** Each rank of a well-formed MSA gets a column, and it is the right one. */
  lemma ColumnAt(msa: seq<string>, s: nat)
    requires WellFormed(msa) && s < |MsaText(msa)|
    ensures RankOk(msa, s)
  {
    EndPositionsAscend(msa);
    if s > 0 {
      ColumnAtChar(msa, s);
    } else {
      FindRowBetween([0] + Ends(MsaText(msa), 0), -1);
    }
  }

  lemma ColumnAtChar(msa: seq<string>, s: nat)
    requires WellFormed(msa) && 0 < s < |MsaText(msa)|
    ensures RankOk(msa, s)
  {
    var t, ps, rows := MsaText(msa), Pieces(Ended(msa)), Ended(msa);
    var ep := [0] + Ends(t, 0);
    var p := s - 1;
    EndPositionsAscend(msa);
    EndPositionsOfText(msa);
    TextIsConcat(msa);
    ConcatLength(ps);
    LocateInRow(ps, t, ep, p);
    var u, place := FindRow(ep, p).value, FindP(ep, p).value;
    ColumnMapAt(rows, |msa|, u, place);
    assert rows[u] == msa[u] + [END];
    var c := ColumnMap(rows, |msa|)[(u, place)];
    assert Column(|msa|, ColumnMap(rows, |msa|), Some(u), Some(place)) == Some(c);
    assert Located(msa, t, s, c, Some(u), t[p]);
  }

  /** `construct_col` on a well-formed MSA and a suffix array of T raises nothing, and
      every entry of C is the column of the BWT character of its rank. */
  lemma ColumnsCorrect(msa: seq<string>, sa: seq<nat>)
    requires WellFormed(msa)
    requires |sa| == |MsaText(msa)| && forall i :: 0 <= i < |sa| ==> sa[i] < |sa|
    ensures ColumnsOf(msa, sa).Some?
    ensures var t, x := MsaText(msa), ColumnsOf(msa, sa).value;
      |x.c| == |x.seqn| == |x.bwt| == |t| &&
      forall i :: 0 <= i < |t| ==> Located(msa, t, sa[i], x.c[i], x.seqn[i], x.bwt[i])
  {
    var t := MsaText(msa);
    var ep := [0] + Ends(t, 0);
    var seqn := SeqnOf(ep, sa, |t|);
    var places := PlacesOf(ep, sa, |t|);
    var cs := ColumnList(|msa|, ColumnMap(Ended(msa), |msa|), seqn, places);
    forall i | 0 <= i < |t| ensures cs[i].Some? && Located(msa, t, sa[i], cs[i].value, seqn[i], BwtOf(t, sa)[i]) {
      ColumnAt(msa, sa[i]);
      assert seqn[i] == FindRow(ep, sa[i] as int - 1) && places[i] == FindP(ep, sa[i] as int - 1);
      assert cs[i] == Column(|msa|, ColumnMap(Ended(msa), |msa|), seqn[i], places[i]);
      assert BwtOf(t, sa)[i] == BwtChar(t, sa[i]);
    }
  }

  /** An empty MSA makes `construct_col` fail: T is "$#", and the rank of the suffix
      "#" looks up (0, 0) in an empty dictionary. */
  lemma ColumnsOfEmptyMsa(sa: seq<nat>)
    requires SaFits(MsaText([]), sa) && (sa[0] == 1 || sa[1] == 1)
    ensures ColumnsOf([], sa).None?
  {
    var t := MsaText([]);
    assert JoinWith([], [END]) == [];
    assert t == [END, LAST];
    assert Ends(t, 0) == [1] by {
      assert t[1..] == [LAST];
      assert t[1..][1..] == [];
    }
    var ep: seq<nat> := [0, 1];
    assert [0] + Ends(t, 0) == ep && |t| == 2;
    assert FindRow(ep, 0) == Some(0) && FindP(ep, 0) == Some(0);
    var k := if sa[0] == 1 then 0 else 1;
    var cs := ColumnList(0, ColumnMap(Ended([]), 0), SeqnOf(ep, sa, 2), PlacesOf(ep, sa, 2));
    assert cs[k].None?;
    assert !(forall i :: 0 <= i < |cs| ==> cs[i].Some?);
  }
}
