/** The plain straight-line program (SLP) used for random access to the text:
    rule k (line k of the grammar file) rewrites non-terminal 256 + k into a
    pair of symbols; symbols below 256 are terminals (bytes). The last rule is
    the root. `sizes[k]` is the length of the expansion of rule k. */
module Slp {
  import opened Wrappers
  import opened Text
  import PlainSlp

  /** Symbols below NTERM are terminals. */
  const NTERM: nat := 256

  datatype Grammar = Grammar(root: nat, left: seq<nat>, right: seq<nat>, sizes: seq<nat>)

  /** `terminals`: the bytes 0..=255 in order. */
  const TERMINALS: seq<nat> := seq(NTERM, i => i)

  // ---------------------------------------------------------------------------
  // Meaning of a rule table

  /** Symbol `s` is a terminal or names one of the first `k` rules. */
  predicate Earlier(s: nat, k: nat)
  {
    s < NTERM || s - NTERM < k
  }

  /** Every rule refers only to terminals and to rules on earlier lines. */
  predicate Ordered(left: seq<nat>, right: seq<nat>)
  {
    |left| == |right| &&
    forall k :: 0 <= k < |left| ==> Earlier(left[k], k) && Earlier(right[k], k)
  }

  /** The terminals a symbol derives, left to right. */
  function Expand(left: seq<nat>, right: seq<nat>, s: nat): (e: seq<nat>)
    requires Ordered(left, right) && Earlier(s, |left|)
    ensures |e| >= 1
    ensures forall i :: 0 <= i < |e| ==> e[i] < NTERM
    decreases s
  {
    if s < NTERM then [s]
    else Expand(left, right, left[s - NTERM]) + Expand(left, right, right[s - NTERM])
  }

  /** The size recurrence: a terminal has size 1, a rule the sum of its operands' sizes. */
  function Size(left: seq<nat>, right: seq<nat>, s: nat): (n: nat)
    requires Ordered(left, right) && Earlier(s, |left|)
    ensures n == |Expand(left, right, s)|
    decreases s
  {
    if s < NTERM then 1
    else Size(left, right, left[s - NTERM]) + Size(left, right, right[s - NTERM])
  }

  /** The size of rule k, that is of non-terminal NTERM + k. */
  function RuleSize(left: seq<nat>, right: seq<nat>, k: nat): (n: nat)
    requires Ordered(left, right) && k < |left|
    ensures n == |Expand(left, right, NTERM + k)|
  {
    Size(left, right, NTERM + k)
  }

  /** Rules added after symbol `s` do not change what `s` derives. */
  lemma {:induction false} ExpandPrefix(left: seq<nat>, right: seq<nat>, m: nat, s: nat)
    requires Ordered(left, right) && m <= |left| && Earlier(s, m)
    ensures Ordered(left[..m], right[..m])
    ensures Expand(left[..m], right[..m], s) == Expand(left, right, s)
    decreases s
  {
    assert Ordered(left[..m], right[..m]) by {
      forall k | 0 <= k < m ensures Earlier(left[..m][k], k) && Earlier(right[..m][k], k) {
        assert left[..m][k] == left[k] && right[..m][k] == right[k];
      }
    }
    if s >= NTERM {
      assert left[..m][s - NTERM] == left[s - NTERM];
      assert right[..m][s - NTERM] == right[s - NTERM];
      ExpandPrefix(left, right, m, left[s - NTERM]);
      ExpandPrefix(left, right, m, right[s - NTERM]);
    }
  }

  /** Every symbol of the table fits in a `usize`. */
  predicate Words(left: seq<nat>, right: seq<nat>)
  {
    forall k :: 0 <= k < |left| ==> left[k] <= USIZE_MAX && (k < |right| ==> right[k] <= USIZE_MAX)
  }

  /** A grammar object as `from_file` leaves it. */
  predicate Valid(g: Grammar)
  {
    Ordered(g.left, g.right) && Words(g.left, g.right) && |g.left| > 0 && g.root == |g.left| - 1 && |g.sizes| == |g.left| &&
    SizesOk(g.left, g.right, g.sizes)
  }

  /** `sizes` holds the size of every rule, and each fits in a `usize`. */
  predicate SizesOk(left: seq<nat>, right: seq<nat>, sizes: seq<nat>)
    requires Ordered(left, right)
  {
    |sizes| == |left| && forall k :: 0 <= k < |sizes| ==> sizes[k] == RuleSize(left, right, k) <= USIZE_MAX
  }

  /** The text the grammar stands for: the expansion of the root rule. */
  function Yield(g: Grammar): (t: seq<nat>)
    requires Valid(g)
    ensures |t| >= 2
  {
    Expand(g.left, g.right, NTERM + g.root)
  }

  /** `len()`: the length of the text. */
  function Len(g: Grammar): (n: nat)
    requires Valid(g)
    ensures n == |Yield(g)| && 2 <= n <= USIZE_MAX
  {
    g.sizes[g.root]
  }

  // ---------------------------------------------------------------------------
  // Parsing the grammar file

  /** The two symbols of one line: every whitespace-separated word must parse
      as a `usize` and there must be exactly two of them, or `from_file` panics. */
  function LineSymbols(line: string): (r: Option<(nat, nat)>)
    ensures r.Some? ==> r.value.0 <= USIZE_MAX && r.value.1 <= USIZE_MAX
    ensures r.Some? ==> |SplitWhitespace(line)| == 2
  {
    var words := SplitWhitespace(line);
    if |words| == 2 && (forall i :: 0 <= i < |words| ==> ParseUsize(words[i]).Some?)
    then Some((ParseUsize(words[0]).value, ParseUsize(words[1]).value))
    else None
  }

  /** The symbol pairs of all lines, or None when some line is malformed. */
  function ParseRules(lines: seq<string>): (r: Option<(seq<nat>, seq<nat>)>)
    ensures r.Some? <==> forall k :: 0 <= k < |lines| ==> LineSymbols(lines[k]).Some?
    ensures r.Some? ==> |r.value.0| == |r.value.1| == |lines|
    ensures r.Some? ==> forall k :: 0 <= k < |lines| ==> LineSymbols(lines[k]) == Some((r.value.0[k], r.value.1[k]))
  {
    if exists k :: 0 <= k < |lines| && LineSymbols(lines[k]).None? then None
    else
      Some((seq(|lines|, k requires 0 <= k < |lines| => LineSymbols(lines[k]).value.0),
            seq(|lines|, k requires 0 <= k < |lines| => LineSymbols(lines[k]).value.1)))
  }

  /** The grammar built from a rule table, or None where `from_file` panics:
      an empty table (the root index underflows), a reference to a rule that
      is not on an earlier line (`sizes` is indexed past its end), or a size
      beyond `usize::MAX` (the addition overflows). */
  function Build(left: seq<nat>, right: seq<nat>): (r: Option<Grammar>)
    requires |left| == |right| && Words(left, right)
    ensures r.Some? <==> |left| > 0 && Ordered(left, right) &&
                         forall k :: 0 <= k < |left| ==> RuleSize(left, right, k) <= USIZE_MAX
    ensures r.Some? ==> Valid(r.value) && r.value.left == left && r.value.right == right
  {
    if |left| == 0 || !Ordered(left, right) then None
    else if exists k :: 0 <= k < |left| && RuleSize(left, right, k) > USIZE_MAX then None
    else
      var sizes: seq<nat> := seq(|left|, k requires 0 <= k < |left| => RuleSize(left, right, k));
      Some(Grammar(|left| - 1, left, right, sizes))
  }

  /** `from_file` on the lines of the grammar file. */
  function ParseGrammar(lines: seq<string>): Option<Grammar>
  {
    var rules :- ParseRules(lines);
    Build(rules.0, rules.1)
  }

  /** Every valid grammar is what `Build` makes of its own rule table. */
  lemma BuildValid(g: Grammar)
    requires Valid(g)
    ensures Build(g.left, g.right) == Some(g)
  {
    var r := Build(g.left, g.right);
    assert r.Some?;
    assert r.value.sizes == g.sizes;
  }

  /** The size `from_file` computes for an operand: 1 for a terminal, the
      size already pushed for a non-terminal. */
  function OperandSize(sizes: seq<nat>, s: nat): nat
    requires Earlier(s, |sizes|)
  {
    if s < NTERM then 1 else sizes[s - NTERM]
  }

  /** Pushing a rule whose operands are earlier symbols keeps the table
      ordered, keeps the earlier sizes, and the new rule's size is the sum
      of its operands' sizes. */
  lemma PushRule(left: seq<nat>, right: seq<nat>, sizes: seq<nat>, l: nat, r: nat)
    requires Ordered(left, right) && SizesOk(left, right, sizes)
    requires Earlier(l, |left|) && Earlier(r, |left|)
    ensures Ordered(left + [l], right + [r])
    ensures RuleSize(left + [l], right + [r], |left|) == OperandSize(sizes, l) + OperandSize(sizes, r)
    ensures forall k :: 0 <= k < |left| ==> RuleSize(left + [l], right + [r], k) == sizes[k]
    ensures OperandSize(sizes, l) + OperandSize(sizes, r) <= USIZE_MAX ==>
              SizesOk(left + [l], right + [r], sizes + [OperandSize(sizes, l) + OperandSize(sizes, r)])
  {
    var left', right', m := left + [l], right + [r], |left|;
    assert left'[..m] == left && right'[..m] == right;
    assert Ordered(left', right');
    ExpandPrefix(left', right', m, l);
    ExpandPrefix(left', right', m, r);
    EarlierSizes(left', right', m, sizes);
  }

  /** The sizes of the first m rules do not depend on the rules after them. */
  lemma EarlierSizes(left: seq<nat>, right: seq<nat>, m: nat, sizes: seq<nat>)
    requires Ordered(left, right) && m <= |left|
    requires Ordered(left[..m], right[..m]) && SizesOk(left[..m], right[..m], sizes)
    ensures forall k :: 0 <= k < m ==> RuleSize(left, right, k) == sizes[k]
  {
    forall k | 0 <= k < m ensures RuleSize(left, right, k) == sizes[k] {
      ExpandPrefix(left, right, m, NTERM + k);
    }
  }

  /** `Grammar::from_file`: the push loop over the lines, computing each
      rule's size from the sizes already pushed. */
  method FromLines(lines: seq<string>) returns (r: Option<Grammar>)
    ensures r == ParseGrammar(lines)
  {
    var left: seq<nat> := [];
    var right: seq<nat> := [];
    var sizes: seq<nat> := [];
    for i := 0 to |lines|
      invariant |left| == i && ReadAs(lines, left, right, sizes)
    {
      var next := ReadRule(lines, left, right, sizes);
      if next.None? {
        return None;
      }
      var (l, rt, size) := next.value;
      left, right, sizes := left + [l], right + [rt], sizes + [size];
    }
    if |left| == 0 {
      return None;
    }
    ParsedTable(lines, Grammar(|left| - 1, left, right, sizes));
    return Some(Grammar(|left| - 1, left, right, sizes));
  }

  /** The first |left| lines read as the rules `left`/`right`, whose sizes are `sizes`. */
  predicate ReadAs(lines: seq<string>, left: seq<nat>, right: seq<nat>, sizes: seq<nat>)
  {
    |left| == |right| <= |lines| &&
    (forall k :: 0 <= k < |left| ==> LineSymbols(lines[k]) == Some((left[k], right[k]))) &&
    Ordered(left, right) && SizesOk(left, right, sizes)
  }

  /** One iteration of the `from_file` loop: read line |left| as a rule and
      compute its size. It fails, as `from_file` panics, on a malformed line,
      a reference to a rule not on an earlier line, or a size beyond
      `usize::MAX`; otherwise the table grows by that rule. */
  method ReadRule(lines: seq<string>, left: seq<nat>, right: seq<nat>, sizes: seq<nat>)
    returns (next: Option<(nat, nat, nat)>)
    requires ReadAs(lines, left, right, sizes) && |left| < |lines|
    ensures next.None? ==> ParseGrammar(lines).None?
    ensures next.Some? ==> ReadAs(lines, left + [next.value.0], right + [next.value.1], sizes + [next.value.2])
  {
    var i := |left|;
    var symbols := LineSymbols(lines[i]);
    if symbols.None? {
      MalformedAt(lines, i);
      return None;
    }
    var (l, r) := symbols.value;
    if !Earlier(l, i) || !Earlier(r, i) {
      FailsAt(lines, i);
      return None;
    }
    var leftSize := OperandSize(sizes, l);
    var rightSize := OperandSize(sizes, r);
    if leftSize + rightSize > USIZE_MAX {
      OverflowingLine(lines, left, right, sizes, l, r);
      return None;
    }
    ReadLine(lines, left, right, sizes, l, r);
    return Some((l, r, leftSize + rightSize));
  }

  /** A well-formed line whose size fits extends the rules read so far by one. */
  lemma ReadLine(lines: seq<string>, left: seq<nat>, right: seq<nat>, sizes: seq<nat>, l: nat, r: nat)
    requires ReadAs(lines, left, right, sizes) && |left| < |lines|
    requires LineSymbols(lines[|left|]) == Some((l, r)) && Earlier(l, |left|) && Earlier(r, |left|)
    requires OperandSize(sizes, l) + OperandSize(sizes, r) <= USIZE_MAX
    ensures ReadAs(lines, left + [l], right + [r], sizes + [OperandSize(sizes, l) + OperandSize(sizes, r)])
  {
    PushRule(left, right, sizes, l, r);
    PushedLine(lines, left, right, l, r);
  }

  /** A well-formed line whose size does not fit makes parsing fail. */
  lemma OverflowingLine(lines: seq<string>, left: seq<nat>, right: seq<nat>, sizes: seq<nat>, l: nat, r: nat)
    requires ReadAs(lines, left, right, sizes) && |left| < |lines|
    requires LineSymbols(lines[|left|]) == Some((l, r)) && Earlier(l, |left|) && Earlier(r, |left|)
    requires OperandSize(sizes, l) + OperandSize(sizes, r) > USIZE_MAX
    ensures ParseGrammar(lines).None?
  {
    PushRule(left, right, sizes, l, r);
    PushedLine(lines, left, right, l, r);
    OverflowsAt(lines, |left|, left + [l], right + [r]);
  }

  lemma PushedLine(lines: seq<string>, left: seq<nat>, right: seq<nat>, l: nat, r: nat)
    requires |left| == |right| < |lines|
    requires forall k :: 0 <= k < |left| ==> LineSymbols(lines[k]) == Some((left[k], right[k]))
    requires LineSymbols(lines[|left|]) == Some((l, r))
    ensures forall k :: 0 <= k <= |left| ==> LineSymbols(lines[k]) == Some(((left + [l])[k], (right + [r])[k]))
  {
    forall k | 0 <= k <= |left| ensures LineSymbols(lines[k]) == Some(((left + [l])[k], (right + [r])[k])) {
      if k < |left| {
        assert (left + [l])[k] == left[k] && (right + [r])[k] == right[k];
      }
    }
  }

  /** A malformed line makes parsing fail. */
  lemma MalformedAt(lines: seq<string>, i: nat)
    requires i < |lines| && LineSymbols(lines[i]).None?
    ensures ParseGrammar(lines).None?
  {
  }

  /** When every line reads as the corresponding rule of a valid grammar, parsing gives that grammar. */
  lemma ParsedTable(lines: seq<string>, g: Grammar)
    requires Valid(g) && |lines| == |g.left|
    requires forall k :: 0 <= k < |lines| ==> LineSymbols(lines[k]) == Some((g.left[k], g.right[k]))
    ensures ParseGrammar(lines) == Some(g)
  {
    var rules := ParseRules(lines);
    assert rules.value.0 == g.left && rules.value.1 == g.right;
    BuildValid(g);
  }

  /** A line that refers to itself or to a later rule makes parsing fail. */
  lemma FailsAt(lines: seq<string>, i: nat)
    requires i < |lines| && LineSymbols(lines[i]).Some?
    requires !Earlier(LineSymbols(lines[i]).value.0, i) || !Earlier(LineSymbols(lines[i]).value.1, i)
    ensures ParseGrammar(lines).None?
  {
    var rules := ParseRules(lines);
    if rules.Some? {
      assert rules.value.0[i] == LineSymbols(lines[i]).value.0;
      assert rules.value.1[i] == LineSymbols(lines[i]).value.1;
      assert !Ordered(rules.value.0, rules.value.1);
    }
  }

  /** A rule whose size exceeds `usize::MAX` makes parsing fail. */
  lemma OverflowsAt(lines: seq<string>, i: nat, left: seq<nat>, right: seq<nat>)
    requires i < |lines| && |left| == |right| == i + 1 && Ordered(left, right)
    requires forall k :: 0 <= k <= i ==> LineSymbols(lines[k]) == Some((left[k], right[k]))
    requires RuleSize(left, right, i) > USIZE_MAX
    ensures ParseGrammar(lines).None?
  {
    var rules := ParseRules(lines);
    if rules.Some? {
      var L, R := rules.value.0, rules.value.1;
      assert L[..i + 1] == left && R[..i + 1] == right;
      if Ordered(L, R) {
        ExpandPrefix(L, R, i + 1, NTERM + i);
        assert RuleSize(L, R, i) > USIZE_MAX;
      }
    }
  }

  // ---------------------------------------------------------------------------
  // Random access

  /** Offset `t` of the text is offset `t - skipped` of the expansion of `symbol`, whose
      expansion ends at `end`. */
  ghost predicate Reaches(g: Grammar, t: nat, symbol: nat, skipped: nat, end: nat)
    requires Valid(g)
  {
    Earlier(symbol, |g.left|) &&
    skipped <= t < end == skipped + |Expand(g.left, g.right, symbol)| <= Len(g) &&
    Yield(g)[t] == Expand(g.left, g.right, symbol)[t - skipped]
  }

  /** One descent step from rule `symbol`: offset `t` lies in the left operand's
      expansion when it is below that operand's size, which `sizes` holds, and in the
      right operand's otherwise. */
  lemma Descend(g: Grammar, t: nat, symbol: nat, skipped: nat, end: nat)
    requires Valid(g) && NTERM <= symbol && Reaches(g, t, symbol, skipped, end)
    ensures var l, r, n := g.left[symbol - NTERM], g.right[symbol - NTERM], OperandSize(g.sizes, g.left[symbol - NTERM]);
      l < symbol && r < symbol &&
      (t < skipped + n ==> Reaches(g, t, l, skipped, skipped + n)) &&
      (t >= skipped + n ==> Reaches(g, t, r, skipped + n, end))
  {
    var l, r := g.left[symbol - NTERM], g.right[symbol - NTERM];
    var e, el, er := Expand(g.left, g.right, symbol), Expand(g.left, g.right, l), Expand(g.left, g.right, r);
    assert e == el + er;
    if t < skipped + |el| {
      assert e[t - skipped] == el[t - skipped];
    } else {
      assert e[t - skipped] == er[t - skipped - |el|];
    }
  }

  /** `grammar[index]`: descend from the root, going left while the index
      falls inside the left operand and right otherwise. For an index past the
      end the descent keeps going right and yields the last byte of the text. */
  method Index(g: Grammar, index: nat) returns (b: nat)
    requires Valid(g) && index <= USIZE_MAX
    ensures b < NTERM
    ensures index < Len(g) ==> b == Yield(g)[index]
    ensures index >= Len(g) ==> b == Yield(g)[Len(g) - 1]
  {
    var t: nat := if index < Len(g) then index else Len(g) - 1;
    var symbol: nat := g.root + NTERM;
    var skipped: nat := 0;
    ghost var end: nat := Len(g);
    while symbol >= NTERM
      invariant Reaches(g, t, symbol, skipped, end)
      invariant index >= Len(g) ==> end == Len(g)
      decreases symbol
    {
      Descend(g, t, symbol, skipped, end);
      var leftSymbol := g.left[symbol - NTERM];
      var leftSize := OperandSize(g.sizes, leftSymbol);
      if skipped + leftSize > index {
        symbol, end := leftSymbol, skipped + leftSize;
      } else {
        symbol := g.right[symbol - NTERM];
        skipped := skipped + leftSize;
      }
    }
    b := TERMINALS[symbol];
  }

  // ---------------------------------------------------------------------------
  // Writing the grammar file

  /** One line of the grammar file: both symbols in decimal, separated by a blank. */
  function RuleText(l: nat, r: nat): string
  {
    NatToDec(l) + " " + NatToDec(r)
  }

  function RuleTexts(left: seq<nat>, right: seq<nat>): (ls: seq<string>)
    requires |left| == |right|
    ensures |ls| == |left|
    ensures forall k :: 0 <= k < |left| ==> ls[k] == RuleText(left[k], right[k])
  {
    seq(|left|, k requires 0 <= k < |left| => RuleText(left[k], right[k]))
  }

  lemma DecimalHasNoSpace(n: nat)
    ensures |NatToDec(n)| > 0 && NoneIn(NatToDec(n), IsRustSpace) && '\n' !in NatToDec(n)
    ensures NatToDec(n)[|NatToDec(n)| - 1] != '\r'
  {
    NatToDecShape(n);
  }

  /** A line written as "l r" reads back as the pair (l, r). */
  lemma LineSymbolsOfRuleText(l: nat, r: nat)
    requires l <= USIZE_MAX && r <= USIZE_MAX
    ensures LineSymbols(RuleText(l, r)) == Some((l, r))
  {
    var dl, dr := NatToDec(l), NatToDec(r);
    DecimalHasNoSpace(l);
    DecimalHasNoSpace(r);
    TokensSplitAt(dl, ' ', dr, IsRustSpace);
    assert RuleText(l, r) == dl + [' '] + dr;
    TokensOfToken(dl, IsRustSpace);
    TokensOfToken(dr, IsRustSpace);
    ParseUsizeOfDec(l);
    ParseUsizeOfDec(r);
    assert SplitWhitespace(RuleText(l, r)) == [dl, dr];
  }

  /** The lines of the text "l0 r0\n l1 r1\n ..." parse back into the same table. */
  lemma {:induction false} ParseRulesOfText(left: seq<nat>, right: seq<nat>)
    requires |left| == |right| && Words(left, right)
    ensures ParseRules(Lines(Unlines(RuleTexts(left, right)))) == Some((left, right))
  {
    var ls := RuleTexts(left, right);
    forall k | 0 <= k < |ls| ensures '\n' !in ls[k] && (|ls[k]| > 0 ==> ls[k][|ls[k]| - 1] != '\r') {
      DecimalHasNoSpace(left[k]);
      DecimalHasNoSpace(right[k]);
      assert ls[k] == NatToDec(left[k]) + " " + NatToDec(right[k]);
    }
    LinesOfUnlines(ls);
    forall k | 0 <= k < |ls| ensures LineSymbols(ls[k]) == Some((left[k], right[k])) {
      LineSymbolsOfRuleText(left[k], right[k]);
    }
    var r := ParseRules(ls);
    assert r.value.0 == left && r.value.1 == right;
  }

  /** `print`: one "left right" line per rule, in order. Reading the written
      text with `from_file` rebuilds the same grammar. */
  method Print(g: Grammar) returns (text: string)
    requires Valid(g)
    ensures Lines(text) == RuleTexts(g.left, g.right)
    ensures ParseGrammar(Lines(text)) == Some(g)
  {
    text := "";
    for i := 0 to |g.left|
      invariant text == Unlines(RuleTexts(g.left[..i], g.right[..i]))
    {
      UnlinesSnoc(RuleTexts(g.left[..i], g.right[..i]), RuleText(g.left[i], g.right[i]));
      assert RuleTexts(g.left[..i + 1], g.right[..i + 1])
             == RuleTexts(g.left[..i], g.right[..i]) + [RuleText(g.left[i], g.right[i])];
      text := text + RuleText(g.left[i], g.right[i]) + "\n";
    }
    assert g.left[..|g.left|] == g.left && g.right[..|g.right|] == g.right;
    ParseRulesOfText(g.left, g.right);
    BuildValid(g);
    LinesOfUnlinesRules(g.left, g.right);
  }

  lemma LinesOfUnlinesRules(left: seq<nat>, right: seq<nat>)
    requires |left| == |right|
    ensures Lines(Unlines(RuleTexts(left, right))) == RuleTexts(left, right)
  {
    var ls := RuleTexts(left, right);
    forall k | 0 <= k < |ls| ensures '\n' !in ls[k] && (|ls[k]| > 0 ==> ls[k][|ls[k]| - 1] != '\r') {
      DecimalHasNoSpace(left[k]);
      DecimalHasNoSpace(right[k]);
      assert ls[k] == NatToDec(left[k]) + " " + NatToDec(right[k]);
    }
    LinesOfUnlines(ls);
  }

  // ---------------------------------------------------------------------------
  // The variant in the main3 binary

  /** main3's `from_file` trims every line before splitting it into words. */
  function ParseGrammarTrimmed(lines: seq<string>): Option<Grammar>
  {
    ParseGrammar(seq(|lines|, k requires 0 <= k < |lines| => Trim(lines[k])))
  }

  /** The `trim` is harmless: both readers build the same grammar from the same lines. */
  lemma ParseGrammarTrimmedSame(lines: seq<string>)
    ensures ParseGrammarTrimmed(lines) == ParseGrammar(lines)
  {
    var trimmed := seq(|lines|, k requires 0 <= k < |lines| => Trim(lines[k]));
    forall k | 0 <= k < |lines| ensures LineSymbols(trimmed[k]) == LineSymbols(lines[k]) {
      SplitWhitespaceOfTrim(lines[k]);
    }
    var a, b := ParseRules(trimmed), ParseRules(lines);
    assert a.Some? == b.Some?;
    if a.Some? {
      assert a.value.0 == b.value.0 && a.value.1 == b.value.1;
    }
  }

  // ---------------------------------------------------------------------------
  // Pushing one rule

  /** Adding rule (a, b) after a table keeps it ordered, does not change what
      earlier symbols derive, and the new rule derives a's terminals then b's. */
  lemma ExpandPush(left: seq<nat>, right: seq<nat>, a: nat, b: nat)
    requires Ordered(left, right) && Earlier(a, |left|) && Earlier(b, |left|)
    ensures Ordered(left + [a], right + [b])
    ensures forall s :: Earlier(s, |left|) ==> Expand(left + [a], right + [b], s) == Expand(left, right, s)
    ensures Expand(left + [a], right + [b], NTERM + |left|) == Expand(left, right, a) + Expand(left, right, b)
  {
    var left', right', m := left + [a], right + [b], |left|;
    assert left'[..m] == left && right'[..m] == right;
    assert Ordered(left', right');
    forall s | Earlier(s, m) ensures Expand(left', right', s) == Expand(left, right, s) {
      ExpandPrefix(left', right', m, s);
    }
  }

  // ---------------------------------------------------------------------------
  // From the Re-Pair transcoder to the grammar

  /** The `.plainslp` text the transcoder writes for a rule table is read by
      `from_file` as exactly that table: its left and right columns. The grammar
      it then builds has that table as its rules, and it is built exactly when
      the table is non-empty, refers only to earlier rules and no size exceeds
      `usize::MAX`. */
  lemma TranscodedRulesParse(rules: seq<PlainSlp.Tpair>)
    requires PlainSlp.WordRules(rules)
    ensures var left := seq(|rules|, k requires 0 <= k < |rules| => rules[k].left);
            var right := seq(|rules|, k requires 0 <= k < |rules| => rules[k].right);
            ParseRules(Lines(Unlines(PlainSlp.RuleLines(rules)))) == Some((left, right))
    ensures var left := seq(|rules|, k requires 0 <= k < |rules| => rules[k].left);
            var right := seq(|rules|, k requires 0 <= k < |rules| => rules[k].right);
            var g := ParseGrammar(Lines(Unlines(PlainSlp.RuleLines(rules))));
            (g.Some? <==> |rules| > 0 && Ordered(left, right) &&
                          forall k :: 0 <= k < |rules| ==> RuleSize(left, right, k) <= USIZE_MAX) &&
            (g.Some? ==> Valid(g.value) && g.value.left == left && g.value.right == right)
  {
    var left := seq(|rules|, k requires 0 <= k < |rules| => rules[k].left);
    var right := seq(|rules|, k requires 0 <= k < |rules| => rules[k].right);
    assert PlainSlp.RuleLines(rules) == RuleTexts(left, right);
    ParseRulesOfText(left, right);
    assert Words(left, right);
    var g := ParseGrammar(Lines(Unlines(PlainSlp.RuleLines(rules))));
    assert g == Build(left, right);
  }
}
