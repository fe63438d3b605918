/** The Re-Pair rule-table transcoder: reads `<base>.R` (a 4-byte header `alph`
    followed by packed pairs of 4-byte unsigned symbol numbers, in host byte
    order, modelled as little-endian), checks that `<base>.C` can be opened,
    and writes one "left right" line per rule to `<base>.plainslp`.
    The file system is a map from names to entries; an exit with status 1
    leaves the output file untouched unless it was already opened. */
module PlainSlp {
  import opened Wrappers
  import opened Text

  /** Modulus of a C `unsigned int`. */
  const WORD: nat := 0x1_0000_0000
  /** Modulus of `size_t` on a 64-bit target. */
  const SIZE_T: nat := 0x1_0000_0000_0000_0000
  /** Largest value of the C `int` loop counter. */
  const INT_MAX: nat := 0x7FFF_FFFF

  type Byte = b: int | 0 <= b < 256

  /** One rule `Tpair`: two 32-bit symbol numbers. */
  datatype Tpair = Tpair(left: nat, right: nat)

  /** A `.R` file after decoding: the header word and the rule table `R`. */
  datatype RFile = RFile(alph: nat, rules: seq<Tpair>)

  /** A name the program can `stat`: either `fopen` fails on it, or it opens,
      `stat` reports `size` and reading yields `bytes`. */
  datatype Entry = Unopenable | Readable(size: nat, bytes: seq<Byte>)

  /** Exit status and, when the output file was opened, its name and final contents. */
  datatype Outcome = Outcome(status: nat, written: Option<(string, string)>)

  // ---------------------------------------------------------------------------
  // Words

  /** The unsigned word stored at b[i..i+4], least significant byte first. */
  function Le32(b: seq<Byte>, i: nat): (w: nat)
    requires i + 4 <= |b|
    ensures w < WORD
  {
    b[i] as int + 0x100 * (b[i + 1] as int + 0x100 * (b[i + 2] as int + 0x100 * b[i + 3] as int))
  }

  /** The four bytes that store `w`, least significant first. */
  function Le32Bytes(w: nat): (b: seq<Byte>)
    requires w < WORD
    ensures |b| == 4
  {
    [w % 0x100, (w / 0x100) % 0x100, (w / 0x1_0000) % 0x100, w / 0x100_0000]
  }

  lemma Le32RoundTrip(w: nat)
    requires w < WORD
    ensures Le32(Le32Bytes(w), 0) == w
  {
    var b0, q0 := w % 0x100, w / 0x100;
    var b1, q1 := q0 % 0x100, q0 / 0x100;
    var b2, b3 := q1 % 0x100, q1 / 0x100;
    assert w == b0 + 0x100 * q0;
    assert q0 == b1 + 0x100 * q1;
    assert q1 == b2 + 0x100 * b3;
    assert w / 0x1_0000 == q1;
    assert w / 0x100_0000 == b3;
    assert Le32Bytes(w) == [b0, b1, b2, b3];
  }

  // ---------------------------------------------------------------------------
  // Decoding the `.R` file

  /** The rule count computed from the stat size: `(len - sizeof(int)) / sizeof(Tpair)`
      in `size_t` arithmetic. */
  function RuleCount(size: nat): (n: nat)
    requires size < SIZE_T
    ensures size >= 4 ==> 4 + 8 * n <= size < 4 + 8 * (n + 1)
  {
    ((size - 4) % SIZE_T) / 8
  }

  /** Pair `k` of the rule table, stored after the header. */
  function PairAt(b: seq<Byte>, k: nat): Tpair
    requires 12 + 8 * k <= |b|
  {
    Tpair(Le32(b, 4 + 8 * k), Le32(b, 8 + 8 * k))
  }

  /** What the program takes from an `.R` file whose stat size is `size` and
      whose contents are `b`; None where it exits with status 1: the header
      read fails, or fewer than `RuleCount(size)` whole pairs follow it. */
  function ReadR(size: nat, b: seq<Byte>): (r: Option<RFile>)
    requires size < SIZE_T
    ensures |b| < 4 ==> r.None?
    ensures r.Some? ==> |r.value.rules| == RuleCount(size) && 4 + 8 * RuleCount(size) <= |b|
    ensures r.Some? ==> r.value.alph < WORD
    ensures r.Some? ==> forall k :: 0 <= k < |r.value.rules| ==> r.value.rules[k] == PairAt(b, k)
  {
    if |b| < 4 then None
    else
      var n := RuleCount(size);
      if |b| < 4 + 8 * n then None
      else Some(RFile(Le32(b, 0), seq(n, k requires 0 <= k < n => PairAt(b, k))))
  }

  predicate WordRules(rules: seq<Tpair>)
  {
    forall k :: 0 <= k < |rules| ==> rules[k].left < WORD && rules[k].right < WORD
  }

  /** The bytes of an `.R` file holding header `alph` and the table `rules`. */
  function EncodeR(alph: nat, rules: seq<Tpair>): (b: seq<Byte>)
    requires alph < WORD && WordRules(rules)
    ensures |b| == 4 + 8 * |rules|
    decreases |rules|
  {
    if |rules| == 0 then Le32Bytes(alph)
    else
      var last := rules[|rules| - 1];
      EncodeR(alph, rules[..|rules| - 1]) + Le32Bytes(last.left) + Le32Bytes(last.right)
  }

  /** Every word of an encoded file sits where the decoder looks for it. */
  lemma {:induction false} EncodeRLayout(alph: nat, rules: seq<Tpair>)
    requires alph < WORD && WordRules(rules)
    ensures Le32(EncodeR(alph, rules), 0) == alph
    ensures forall k :: 0 <= k < |rules| ==> PairAt(EncodeR(alph, rules), k) == rules[k]
    decreases |rules|
  {
    var b := EncodeR(alph, rules);
    if |rules| == 0 {
      Le32RoundTrip(alph);
    } else {
      var m := |rules| - 1;
      var init := rules[..m];
      var p := EncodeR(alph, init);
      var lb, rb := Le32Bytes(rules[m].left), Le32Bytes(rules[m].right);
      EncodeRLayout(alph, init);
      assert b == p + lb + rb;
      assert b[0..4] == p[0..4];
      assert Le32(b, 0) == Le32(p, 0);
      forall k | 0 <= k < |rules| ensures PairAt(b, k) == rules[k] {
        if k < m {
          assert b[4 + 8 * k..12 + 8 * k] == p[4 + 8 * k..12 + 8 * k];
          assert PairAt(b, k) == PairAt(p, k);
          assert init[k] == rules[k];
        } else {
          Le32RoundTrip(rules[m].left);
          Le32RoundTrip(rules[m].right);
          assert b[4 + 8 * m..8 + 8 * m] == lb;
          assert b[8 + 8 * m..12 + 8 * m] == rb;
          assert Le32(b, 4 + 8 * m) == Le32(lb, 0);
          assert Le32(b, 8 + 8 * m) == Le32(rb, 0);
        }
      }
    }
  }

  /** Decoding an encoded file gives back its header and rules, whatever fewer
      than 8 trailing bytes follow them: they do not fill a pair and are ignored. */
  lemma ReadREncoded(alph: nat, rules: seq<Tpair>, extra: seq<Byte>)
    requires alph < WORD && WordRules(rules)
    requires |extra| < 8
    requires 4 + 8 * |rules| + |extra| < SIZE_T
    ensures ReadR(|EncodeR(alph, rules) + extra|, EncodeR(alph, rules) + extra) == Some(RFile(alph, rules))
  {
    var e := EncodeR(alph, rules);
    var b := e + extra;
    EncodeRLayout(alph, rules);
    assert RuleCount(|b|) == |rules|;
    assert b[0..4] == e[0..4];
    assert Le32(b, 0) == alph;
    forall k | 0 <= k < |rules| ensures PairAt(b, k) == rules[k] {
      assert b[4 + 8 * k..12 + 8 * k] == e[4 + 8 * k..12 + 8 * k];
      assert PairAt(b, k) == PairAt(e, k);
    }
    var r := ReadR(|b|, b);
    assert r.Some?;
    assert r.value.rules == rules;
  }

  // ---------------------------------------------------------------------------
  // Output

  /** `print_rule`'s line for one rule: both symbols in unsigned decimal. */
  function RuleLine(p: Tpair): (l: string)
    ensures '\n' !in l && |l| > 0 && l[|l| - 1] != '\r'
  {
    NatToDecShape(p.left);
    NatToDecShape(p.right);
    NatToDec(p.left) + " " + NatToDec(p.right)
  }

  function RuleLines(rules: seq<Tpair>): (ls: seq<string>)
    ensures |ls| == |rules|
    ensures forall k :: 0 <= k < |rules| ==> ls[k] == RuleLine(rules[k])
  {
    seq(|rules|, k requires 0 <= k < |rules| => RuleLine(rules[k]))
  }

  /** `print_rule(i)` reads rule `R[i - alph]`, in unsigned arithmetic. */
  function RuleIndex(alph: nat, id: nat): nat
  {
    (id - alph) % WORD
  }

  /** The loop passes `alph + k` (wrapping) and `print_rule` subtracts `alph`
      again, so it always reads rule `k`, whatever the header holds. */
  lemma RuleIndexOfId(alph: nat, k: nat)
    requires alph < WORD && k < WORD
    ensures RuleIndex(alph, (alph + k) % WORD) == k
  {
    if alph + k >= WORD {
      assert (alph + k) % WORD == alph + k - WORD;
    }
  }

  /** What the whole program does, from its arguments and the files it sees;
      `writable` holds the names it can open for writing. */
  function Transcode(args: seq<string>, fs: map<string, Entry>, writable: set<string>): Outcome
    requires forall name :: name in fs && fs[name].Readable? ==> fs[name].size < SIZE_T
  {
    if |args| != 2 then Outcome(1, None)
    else
      var rName, cName, outName := args[1] + ".R", args[1] + ".C", args[1] + ".plainslp";
      if rName !in fs || fs[rName].Unopenable? then Outcome(1, None)
      else
        var r := ReadR(fs[rName].size, fs[rName].bytes);
        if r.None? then Outcome(1, None)
        else if cName !in fs || fs[cName].Unopenable? then Outcome(1, None)
        else if outName !in writable then Outcome(1, None)
        else Outcome(0, Some((outName, Unlines(RuleLines(r.value.rules)))))
  }

  predicate SizesFit(fs: map<string, Entry>)
  {
    forall name :: name in fs && fs[name].Readable? ==> fs[name].size < SIZE_T
  }

  /** Any argument count other than one file name is a usage error, and nothing is written. */
  lemma UsageError(args: seq<string>, fs: map<string, Entry>, writable: set<string>)
    requires SizesFit(fs) && |args| != 2
    ensures Transcode(args, fs, writable) == Outcome(1, None)
  {
  }

  /** The program succeeds exactly when the `.R` file decodes, the `.C` file
      opens and the output file can be created; the output then holds line k
      = "left right" of rule k, for every k in order. */
  lemma TranscodeSucceeds(args: seq<string>, fs: map<string, Entry>, writable: set<string>)
    requires SizesFit(fs) && |args| == 2
    ensures var rName := args[1] + ".R";
            var cName := args[1] + ".C";
            var outName := args[1] + ".plainslp";
            Transcode(args, fs, writable).status == 0
            <==> rName in fs && fs[rName].Readable? && ReadR(fs[rName].size, fs[rName].bytes).Some?
                 && cName in fs && fs[cName].Readable? && outName in writable
  ensures Transcode(args, fs, writable).status != 0 ==> Transcode(args, fs, writable).written.None?
  {
  }

  /** The contents of the `.C` file are never read: only whether it opens matters. */
  lemma CFileNotRead(args: seq<string>, fs: map<string, Entry>, writable: set<string>, e1: Entry, e2: Entry)
    requires SizesFit(fs) && |args| == 2
    requires e1.Readable? && e2.Readable? && e1.size < SIZE_T && e2.size < SIZE_T
    ensures Transcode(args, fs[args[1] + ".C" := e1], writable) == Transcode(args, fs[args[1] + ".C" := e2], writable)
  {
    var rName, cName := args[1] + ".R", args[1] + ".C";
    assert rName[|rName| - 1] != cName[|cName| - 1];
    assert rName != cName;
  }

  /** A header-only `.R` file gives an empty output file and status 0. */
  lemma HeaderOnlyEmptyOutput(args: seq<string>, fs: map<string, Entry>, writable: set<string>)
    requires SizesFit(fs) && |args| == 2
    requires args[1] + ".R" in fs && fs[args[1] + ".R"].Readable? && fs[args[1] + ".R"].size == 4
    requires |fs[args[1] + ".R"].bytes| >= 4
    requires args[1] + ".C" in fs && fs[args[1] + ".C"].Readable?
    requires args[1] + ".plainslp" in writable
    ensures Transcode(args, fs, writable) == Outcome(0, Some((args[1] + ".plainslp", "")))
  {
  }

  /** The `.plainslp` text of a well-formed `.R` file: its rules, one line each. */
  lemma TranscodeEncoded(args: seq<string>, fs: map<string, Entry>, writable: set<string>,
                         alph: nat, rules: seq<Tpair>, extra: seq<Byte>)
    requires SizesFit(fs) && |args| == 2
    requires alph < WORD && WordRules(rules) && |extra| < 8 && 4 + 8 * |rules| + |extra| < SIZE_T
    requires var b := EncodeR(alph, rules) + extra;
             args[1] + ".R" in fs && fs[args[1] + ".R"] == Readable(|b|, b)
    requires args[1] + ".C" in fs && fs[args[1] + ".C"].Readable?
    requires args[1] + ".plainslp" in writable
    ensures Transcode(args, fs, writable) == Outcome(0, Some((args[1] + ".plainslp", Unlines(RuleLines(rules)))))
  {
    ReadREncoded(alph, rules, extra);
  }

  // ---------------------------------------------------------------------------
  // The program

  /** `main`: the checks in the order the program makes them, then the
      `print_rule` loop over `alph + i`. The C `int` counter limits the
      table to INT_MAX + 1 rules, hence the bound on the `.R` contents. */
  method PrintPlain(args: seq<string>, fs: map<string, Entry>, writable: set<string>) returns (out: Outcome)
    requires SizesFit(fs)
    requires forall name :: name in fs && fs[name].Readable? ==> |fs[name].bytes| < 12 + 8 * INT_MAX
    ensures out == Transcode(args, fs, writable)
  {
    if |args| != 2 {
      return Outcome(1, None);
    }
    var rName := args[1] + ".R";
    if rName !in fs || fs[rName].Unopenable? {
      return Outcome(1, None);
    }
    var len := fs[rName].size;
    var bytes := fs[rName].bytes;
    if |bytes| < 4 {
      return Outcome(1, None);
    }
    var alph := Le32(bytes, 0);
    var n := ((len - 4) % SIZE_T) / 8;
    if |bytes| < 4 + 8 * n {
      return Outcome(1, None);
    }
    var R := seq(n, k requires 0 <= k < n => PairAt(bytes, k));
    var cName := args[1] + ".C";
    if cName !in fs || fs[cName].Unopenable? {
      return Outcome(1, None);
    }
    var outName := args[1] + ".plainslp";
    if outName !in writable {
      return Outcome(1, None);
    }
    var text := "";
    var i := 0;
    while i < n
      invariant 0 <= i <= n
      invariant text == Unlines(RuleLines(R[..i]))
    {
      var id := (alph + i) % WORD;
      RuleIndexOfId(alph, i);
      var k := RuleIndex(alph, id);
      UnlinesSnoc(RuleLines(R[..i]), RuleLine(R[k]));
      assert RuleLines(R[..i + 1]) == RuleLines(R[..i]) + [RuleLine(R[i])];
      text := text + RuleLine(R[k]) + "\n";
      i := i + 1;
    }
    assert R[..n] == R;
    return Outcome(0, Some((outName, text)));
  }
}
