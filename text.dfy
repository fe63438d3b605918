/** Text primitives the programs rely on: decimal formatting of naturals
    (`{}` in Rust, `%u` in C, `str()` in Python), decimal parsing
    (`str::parse::<usize>`), whitespace tokenising (`split_whitespace`,
    Python's `str.split()`), `trim`, `lines` and splitting/joining on one character. */
module Text {
  import opened Wrappers

  /** Largest value of a Rust `usize` on a 64-bit target. */
  const USIZE_MAX: nat := 0xFFFF_FFFF_FFFF_FFFF

  predicate IsDigit(c: char) { '0' <= c <= '9' }

  predicate AllDigits(s: string) { forall i :: 0 <= i < |s| ==> IsDigit(s[i]) }

  function DigitChar(d: nat): (c: char)
    requires d < 10
    ensures IsDigit(c)
  {
    ('0' as int + d) as char
  }

  function DigitValue(c: char): (d: nat)
    requires IsDigit(c)
    ensures d < 10 && DigitChar(d) == c
  {
    (c as int - '0' as int) as nat
  }

  /** The shortest decimal spelling of `n`. */
  function NatToDec(n: nat): (s: string)
    decreases n
  {
    if n < 10 then [DigitChar(n)] else NatToDec(n / 10) + [DigitChar(n % 10)]
  }

  /** The value of a string of decimal digits (leading zeros allowed). */
  function DecValue(s: string): nat
    requires AllDigits(s)
    decreases |s|
  {
    if |s| == 0 then 0 else DecValue(s[..|s| - 1]) * 10 + DigitValue(s[|s| - 1])
  }

  lemma {:induction false} NatToDecShape(n: nat)
    ensures |NatToDec(n)| > 0 && AllDigits(NatToDec(n))
    ensures NatToDec(n)[0] == '0' ==> n == 0
    ensures DecValue(NatToDec(n)) == n
    decreases n
  {
    if n < 10 {
      var s := NatToDec(n);
      assert s == [DigitChar(n)];
      assert s[..0] == [];
      assert DecValue(s) == DecValue(s[..0]) * 10 + DigitValue(s[0]);
    } else {
      var q, r := n / 10, n % 10;
      assert n == q * 10 + r;
      NatToDecShape(q);
      var p := NatToDec(q);
      var s := p + [DigitChar(r)];
      assert s == NatToDec(n);
      assert s[..|s| - 1] == p;
      assert s[0] == p[0];
      assert DigitValue(DigitChar(r)) == r;
      assert DecValue(s) == DecValue(p) * 10 + r;
    }
  }

  /** Decimal spelling of an integer, with a leading '-' for negatives (Python's `str`, Rust's `{}`). */
  function IntToDec(x: int): string
  {
    if x < 0 then "-" + NatToDec(-x) else NatToDec(x)
  }

  /** `str::parse::<usize>()`: an optional '+', then one or more ASCII digits,
      and a value that fits in 64 bits; anything else is an error. */
  function ParseUsize(s: string): (r: Option<nat>)
    ensures r.Some? ==> r.value <= USIZE_MAX
    ensures s == [] ==> r.None?
  {
    var d := if |s| > 0 && s[0] == '+' then s[1..] else s;
    if |d| > 0 && AllDigits(d) && DecValue(d) <= USIZE_MAX then Some(DecValue(d)) else None
  }

  lemma ParseUsizeOfDec(n: nat)
    requires n <= USIZE_MAX
    ensures ParseUsize(NatToDec(n)) == Some(n)
  {
    NatToDecShape(n);
    assert NatToDec(n)[0] != '+';
  }

  /** `int()` applied to a token without surrounding blanks: an optional sign, then digits.
      (Python also accepts '_' between digits; that is not modelled.) */
  function ParsePyInt(s: string): (r: Option<int>)
    ensures s == [] ==> r.None?
  {
    var neg := |s| > 0 && s[0] == '-';
    var d := if |s| > 0 && (s[0] == '+' || s[0] == '-') then s[1..] else s;
    if |d| > 0 && AllDigits(d) then Some(if neg then -(DecValue(d) as int) else DecValue(d) as int) else None
  }

  lemma ParsePyIntOfDec(x: int)
    ensures ParsePyInt(IntToDec(x)) == Some(x)
  {
    var m: nat := if x < 0 then -x else x;
    NatToDecShape(m);
    var digits := NatToDec(m);
    assert IsDigit(digits[0]);
    var s := IntToDec(x);
    if x < 0 {
      assert s == "-" + digits;
      assert s[0] == '-' && s[1..] == digits;
    } else {
      assert s == digits;
    }
  }

  // ---------------------------------------------------------------------------
  // Whitespace

  /** Rust's `char::is_whitespace`: the Unicode White_Space property. */
  predicate IsRustSpace(c: char)
  {
    ('\t' <= c <= '\r') || c == ' ' || c == '\U{0085}' || c == '\U{00A0}' || c == '\U{1680}'
    || ('\U{2000}' <= c <= '\U{200A}') || c == '\U{2028}' || c == '\U{2029}' || c == '\U{202F}'
    || c == '\U{205F}' || c == '\U{3000}'
  }

  /** Python's `str.isspace` for one character: Rust's set plus the four
      information separators U+001C..U+001F. */
  predicate IsPySpace(c: char)
  {
    IsRustSpace(c) || ('\U{001C}' <= c <= '\U{001F}')
  }

  predicate NoneIn(s: string, sp: char -> bool)
  {
    forall i :: 0 <= i < |s| ==> !sp(s[i])
  }

  /** Length of the leading run of characters that are not separators. */
  function TokenLen(s: string, sp: char -> bool): (k: nat)
    ensures k <= |s|
    ensures NoneIn(s[..k], sp)
    ensures k < |s| ==> sp(s[k])
    decreases |s|
  {
    if |s| == 0 || sp(s[0]) then 0
    else
      var k := 1 + TokenLen(s[1..], sp);
      assert s[..k] == [s[0]] + s[1..][..k - 1];
      k
  }

  /** The maximal runs of non-separator characters, in order: `split_whitespace`
      with `sp` = IsRustSpace, and Python's `split()` with `sp` = IsPySpace. */
  function Tokens(s: string, sp: char -> bool): seq<string>
    decreases |s|
  {
    if |s| == 0 then []
    else if sp(s[0]) then Tokens(s[1..], sp)
    else
      var k := TokenLen(s, sp);
      [s[..k]] + Tokens(s[k..], sp)
  }

  function SplitWhitespace(s: string): seq<string> { Tokens(s, IsRustSpace) }

  function PySplit(s: string): seq<string> { Tokens(s, IsPySpace) }

  lemma {:induction false} TokensAreTokens(s: string, sp: char -> bool)
    ensures forall t :: t in Tokens(s, sp) ==> |t| > 0 && NoneIn(t, sp)
    decreases |s|
  {
    if |s| > 0 {
      if sp(s[0]) {
        TokensAreTokens(s[1..], sp);
      } else {
        TokensAreTokens(s[TokenLen(s, sp)..], sp);
      }
    }
  }

  lemma {:induction false} TokensOfToken(t: string, sp: char -> bool)
    requires NoneIn(t, sp)
    ensures TokenLen(t, sp) == |t|
    ensures |t| > 0 ==> Tokens(t, sp) == [t]
    decreases |t|
  {
    if |t| > 0 {
      assert NoneIn(t[1..], sp) by {
        forall i | 0 <= i < |t[1..]| ensures !sp(t[1..][i]) { assert t[1..][i] == t[i + 1]; }
      }
      TokensOfToken(t[1..], sp);
      assert !sp(t[0]);
      assert TokenLen(t, sp) == 1 + TokenLen(t[1..], sp);
      assert t[..|t|] == t;
      assert t[|t|..] == [];
    }
  }

  /** Tokenising a concatenation split at a separator tokenises the two sides. */
  lemma {:induction false} TokensSplitAt(a: string, c: char, b: string, sp: char -> bool)
    requires sp(c)
    ensures Tokens(a + [c] + b, sp) == Tokens(a, sp) + Tokens(b, sp)
    decreases |a|
  {
    var s := a + [c] + b;
    if |a| == 0 {
      assert s[1..] == b;
    } else if sp(a[0]) {
      assert s[1..] == a[1..] + [c] + b;
      TokensSplitAt(a[1..], c, b, sp);
    } else {
      var k := TokenLen(a, sp);
      TokenLenPrefix(a, [c] + b, sp);
      assert s == a + ([c] + b);
      assert s[..k] == a[..k];
      if k < |a| {
        assert s[k..] == a[k..] + [c] + b;
        TokensSplitAt(a[k..], c, b, sp);
      } else {
        assert s[k..] == [c] + b;
        assert ([c] + b)[1..] == b;
        assert a[k..] == [];
      }
    }
  }

  /** Fields without separators, joined by one separator, tokenise back into the fields. */
  lemma {:induction false} TokensOfJoin(parts: seq<string>, c: char, sp: char -> bool)
    requires sp(c) && |parts| > 0
    requires forall k :: 0 <= k < |parts| ==> |parts[k]| > 0 && NoneIn(parts[k], sp)
    ensures Tokens(JoinWith(parts, [c]), sp) == parts
    decreases |parts|
  {
    TokensOfToken(parts[0], sp);
    if |parts| > 1 {
      TokensOfJoin(parts[1..], c, sp);
      TokensSplitAt(parts[0], c, JoinWith(parts[1..], [c]), sp);
      assert JoinWith(parts, [c]) == parts[0] + [c] + JoinWith(parts[1..], [c]);
      assert [parts[0]] + parts[1..] == parts;
    }
  }

  /** The leading token of `a + b` is that of `a` when `a` holds a separator after it or `b` starts with one. */
  lemma {:induction false} TokenLenPrefix(a: string, b: string, sp: char -> bool)
    requires |a| > 0 && !sp(a[0])
    requires TokenLen(a, sp) < |a| || (|b| > 0 && sp(b[0]))
    ensures TokenLen(a + b, sp) == TokenLen(a, sp)
    decreases |a|
  {
    var s := a + b;
    assert s[1..] == a[1..] + b;
    if |a| > 1 && !sp(a[1]) {
      TokenLenPrefix(a[1..], b, sp);
    }
  }

  /** Leading separators are ignored. */
  lemma {:induction false} TokensSkipSpaces(w: string, s: string, sp: char -> bool)
    requires forall i :: 0 <= i < |w| ==> sp(w[i])
    ensures Tokens(w + s, sp) == Tokens(s, sp)
    decreases |w|
  {
    if |w| > 0 {
      assert (w + s)[0] == w[0] && sp(w[0]);
      assert (w + s)[1..] == w[1..] + s;
      assert Tokens(w + s, sp) == Tokens((w + s)[1..], sp);
      TokensSkipSpaces(w[1..], s, sp);
    } else {
      assert w + s == s;
    }
  }

  /** Trailing separators are ignored. */
  lemma {:induction false} TokensDropTrailingSpaces(s: string, w: string, sp: char -> bool)
    requires forall i :: 0 <= i < |w| ==> sp(w[i])
    ensures Tokens(s + w, sp) == Tokens(s, sp)
    decreases |w|
  {
    if |w| > 0 {
      TokensSplitAt(s, w[0], w[1..], sp);
      assert s + w == s + [w[0]] + w[1..];
      TokensSkipSpaces(w[1..], [], sp);
      assert w[1..] + [] == w[1..];
      assert Tokens([], sp) == [];
      assert Tokens(s, sp) + [] == Tokens(s, sp);
    } else {
      assert s + w == s;
    }
  }

  /** Rust's `str::trim`: drop leading and trailing white space. */
  function Trim(s: string): (t: string)
    ensures |t| <= |s|
    decreases |s|
  {
    if |s| > 0 && IsRustSpace(s[0]) then Trim(s[1..])
    else if |s| > 0 && IsRustSpace(s[|s| - 1]) then Trim(s[..|s| - 1])
    else s
  }

  /** `trim` before `split_whitespace` changes nothing. */
  lemma {:induction false} SplitWhitespaceOfTrim(s: string)
    ensures SplitWhitespace(Trim(s)) == SplitWhitespace(s)
    decreases |s|
  {
    if |s| > 0 && IsRustSpace(s[0]) {
      SplitWhitespaceOfTrim(s[1..]);
      TokensSkipSpaces([s[0]], s[1..], IsRustSpace);
      assert [s[0]] + s[1..] == s;
    } else if |s| > 0 && IsRustSpace(s[|s| - 1]) {
      SplitWhitespaceOfTrim(s[..|s| - 1]);
      TokensDropTrailingSpaces(s[..|s| - 1], [s[|s| - 1]], IsRustSpace);
      assert s[..|s| - 1] + [s[|s| - 1]] == s;
    }
  }

  // ---------------------------------------------------------------------------
  // Lines and single-character splitting

  /** Index of the first occurrence of `c` in `s`, or |s|. */
  function FindChar(s: string, c: char): (i: nat)
    ensures i <= |s|
    ensures i < |s| ==> s[i] == c
    ensures forall j :: 0 <= j < i ==> s[j] != c
    decreases |s|
  {
    if |s| == 0 then 0 else if s[0] == c then 0 else 1 + FindChar(s[1..], c)
  }

  /** A line cut off before its '\n', without the '\r' of a "\r\n" ending. */
  function StripCr(l: string): string
  {
    if |l| > 0 && l[|l| - 1] == '\r' then l[..|l| - 1] else l
  }

  /** Rust's `lines()`: split at '\n', drop one '\r' before each '\n', and no
      empty last line after a final '\n'; a last line with no '\n' is kept whole,
      a '\r' at its end included. */
  function Lines(text: string): seq<string>
    decreases |text|
  {
    if |text| == 0 then []
    else
      var i := FindChar(text, '\n');
      if i == |text| then [text] else [StripCr(text[..i])] + Lines(text[i + 1..])
  }

  /** Every piece of `s` between occurrences of `c`; always at least one piece
      (`str::split(c)` in Rust, `str.split(c)` in Python). */
  function SplitOn(s: string, c: char): (parts: seq<string>)
    ensures |parts| > 0
    decreases |s|
  {
    var i := FindChar(s, c);
    if i == |s| then [s] else [s[..i]] + SplitOn(s[i + 1..], c)
  }

  /** The pieces glued back together with `sep` between consecutive ones. */
  function JoinWith(parts: seq<string>, sep: string): string
  {
    if |parts| == 0 then "" else if |parts| == 1 then parts[0] else parts[0] + sep + JoinWith(parts[1..], sep)
  }

  /** Joining pieces that do not contain `c` with `c`, and splitting again, gives the pieces back. */
  lemma {:induction false} SplitOnJoin(parts: seq<string>, c: char)
    requires |parts| > 0
    requires forall k :: 0 <= k < |parts| ==> c !in parts[k]
    ensures SplitOn(JoinWith(parts, [c]), c) == parts
    decreases |parts|
  {
    var p := parts[0];
    if |parts| == 1 {
      assert FindChar(p, c) == |p|;
    } else {
      var s := JoinWith(parts, [c]);
      var rest := JoinWith(parts[1..], [c]);
      assert s == p + [c] + rest;
      assert FindChar(s, c) == |p| by {
        FindCharAfter(p, c, rest);
      }
      assert s[..|p|] == p;
      assert s[|p| + 1..] == rest;
      SplitOnJoin(parts[1..], c);
    }
  }

  /** Splitting at `c` and joining the pieces with `c` gives the text back. */
  lemma {:induction false} JoinSplitOn(s: string, c: char)
    ensures JoinWith(SplitOn(s, c), [c]) == s
    decreases |s|
  {
    var i := FindChar(s, c);
    if i < |s| {
      var rest := SplitOn(s[i + 1..], c);
      JoinSplitOn(s[i + 1..], c);
      var parts := [s[..i]] + rest;
      assert parts[1..] == rest;
      assert JoinWith(parts, [c]) == s[..i] + [c] + s[i + 1..];
      assert s == s[..i] + [c] + s[i + 1..];
    }
  }

  /** Two pieces joined by a separator that neither holds split back into the two. */
  lemma SplitTwo(a: string, c: char, b: string)
    requires c !in a && c !in b
    ensures SplitOn(a + [c] + b, c) == [a, b]
  {
    assert JoinWith([a, b], [c]) == a + [c] + b;
    SplitOnJoin([a, b], c);
  }

  lemma FindCharAfter(p: string, c: char, rest: string)
    requires c !in p
    ensures FindChar(p + [c] + rest, c) == |p|
  {
    var s := p + [c] + rest;
    assert s[|p|] == c;
    forall j | 0 <= j < |p| ensures s[j] != c { assert s[j] == p[j]; }
    FindCharFirst(s, c, |p|);
  }

  lemma FindCharFirst(s: string, c: char, i: nat)
    requires i < |s| && s[i] == c
    requires forall j :: 0 <= j < i ==> s[j] != c
    ensures FindChar(s, c) == i
  {
  }

  /** Text made of lines, each followed by '\n'. */
  function Unlines(ls: seq<string>): string
  {
    if |ls| == 0 then "" else ls[0] + "\n" + Unlines(ls[1..])
  }

  /** `lines()` recovers the lines written one per '\n', provided none holds a
      '\n' or ends in '\r'. */
  lemma {:induction false} LinesOfUnlines(ls: seq<string>)
    requires forall k :: 0 <= k < |ls| ==> '\n' !in ls[k] && (|ls[k]| > 0 ==> ls[k][|ls[k]| - 1] != '\r')
    ensures Lines(Unlines(ls)) == ls
    decreases |ls|
  {
    if |ls| > 0 {
      var t := Unlines(ls);
      var rest := Unlines(ls[1..]);
      assert t == ls[0] + ['\n'] + rest;
      FindCharAfter(ls[0], '\n', rest);
      assert t[..|ls[0]|] == ls[0];
      assert t[|ls[0]| + 1..] == rest;
      LinesOfUnlines(ls[1..]);
    }
  }

  /** Writing one more line appends it and its '\n'. */
  lemma {:induction false} UnlinesSnoc(ls: seq<string>, l: string)
    ensures Unlines(ls + [l]) == Unlines(ls) + l + "\n"
    decreases |ls|
  {
    if |ls| == 0 {
      assert ls + [l] == [l];
      assert Unlines([l][1..]) == "";
    } else {
      assert (ls + [l])[1..] == ls[1..] + [l];
      UnlinesSnoc(ls[1..], l);
    }
  }
}
