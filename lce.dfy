/** The query side: the longest common extension of two suffixes (`lce` in
    src/main.rs over the grammar, in src/bin/main.rs over the bytes, and in
    scripts/create_col.py), the two binary searches that bound the suffix-array
    interval of a match (`get_lower`/`get_upper`), and `list_unique`. A text is a
    sequence of naturals: bytes for the Rust code, code points for the Python. */
module Query {
  import opened SuffixArrays
  import Slp

  // ---------------------------------------------------------------------------
  // Longest common prefix

  /** Length of the longest common prefix of a and b. */
  function Lcp(a: seq<nat>, b: seq<nat>): (k: nat)
    ensures k <= |a| && k <= |b|
    decreases |a|
  {
    if |a| == 0 || |b| == 0 || a[0] != b[0] then 0 else 1 + Lcp(a[1..], b[1..])
  }

  /** a and b agree below their LCP, and at it one of them ends or they differ. */
  lemma {:induction false} LcpFacts(a: seq<nat>, b: seq<nat>)
    ensures forall t :: 0 <= t < Lcp(a, b) ==> a[t] == b[t]
    ensures Lcp(a, b) == |a| || Lcp(a, b) == |b| || a[Lcp(a, b)] != b[Lcp(a, b)]
    decreases |a|
  {
    if |a| > 0 && |b| > 0 && a[0] == b[0] {
      LcpFacts(a[1..], b[1..]);
      forall t | 0 < t < Lcp(a, b) ensures a[t] == b[t] {
        assert a[1..][t - 1] == b[1..][t - 1];
      }
    }
  }

  /** The LCP is the only length with those two properties. */
  lemma {:induction false} LcpIs(a: seq<nat>, b: seq<nat>, k: nat)
    requires k <= |a| && k <= |b|
    requires forall t :: 0 <= t < k ==> a[t] == b[t]
    requires k == |a| || k == |b| || a[k] != b[k]
    ensures Lcp(a, b) == k
    decreases k
  {
    if k > 0 {
      assert a[0] == b[0];
      forall t | 0 <= t < k - 1 ensures a[1..][t] == b[1..][t] {
        assert a[t + 1] == b[t + 1];
      }
      LcpIs(a[1..], b[1..], k - 1);
    }
  }

  lemma LcpSymmetric(a: seq<nat>, b: seq<nat>)
    ensures Lcp(a, b) == Lcp(b, a)
  {
    LcpFacts(a, b);
    LcpIs(b, a, Lcp(a, b));
  }

  /** Rust's slice order is decided at the LCP: the side that ends there, or the
      smaller value there, is the smaller sequence. */
  lemma {:induction false} LexLessAtLcp(a: seq<nat>, b: seq<nat>)
    ensures var k := Lcp(a, b);
      LexLess(a, b) <==> (k == |a| && k < |b|) || (k < |a| && k < |b| && a[k] < b[k])
    decreases |a|
  {
    if |a| > 0 && |b| > 0 && a[0] == b[0] {
      LexLessAtLcp(a[1..], b[1..]);
    }
  }

  /** For x < y < z, the LCP of the outer two is at most either inner LCP. */
  lemma {:induction false} LcpOfSorted(x: seq<nat>, y: seq<nat>, z: seq<nat>)
    requires LexLess(x, y) && LexLess(y, z)
    ensures Lcp(x, z) <= Lcp(x, y) && Lcp(x, z) <= Lcp(y, z)
    decreases |x|
  {
    if |x| > 0 && x[0] == z[0] {
      assert y[0] == x[0];
      LcpOfSorted(x[1..], y[1..], z[1..]);
    }
  }

  lemma LexAsymmetric(a: seq<nat>, b: seq<nat>)
    requires LexLess(a, b)
    ensures !LexLess(b, a)
  {
    if LexLess(b, a) {
      LexTransitive(a, b, a);
      LexIrreflexive(a);
    }
  }

  // ---------------------------------------------------------------------------
  // lce

  /** `lce(seq, s1, s2)` of src/bin/main.rs: the LCP of the two suffixes and whether
      suffix s1 is smaller. Equal starts give the whole suffix and "not smaller". The
      final panic is unreachable: the scan stops at a difference or at an end. Starts
      past the end are excluded: the source underflows or indexes out of bounds. */
  method LceText(t: seq<nat>, s1: nat, s2: nat) returns (l: nat, f: bool)
    requires s1 <= |t| && s2 <= |t|
    ensures l == Lcp(t[s1..], t[s2..])
    ensures f <==> LexLess(t[s1..], t[s2..])
  {
    var n := |t|;
    if s1 == s2 {
      LcpIs(t[s1..], t[s1..], n - s1);
      LexIrreflexive(t[s1..]);
      return n - s1, false;
    }
    l := 0;
    while s1 + l < n && s2 + l < n && t[s1 + l] == t[s2 + l]
      invariant Agree(t, s1, s2, l)
      decreases n - l
    {
      Extend(t, s1, s2, l);
      l := l + 1;
    }
    LceStop(t, s1, s2, l);
    if s1 + l == n {
      f := true;
    } else if s2 + l == n {
      f := false;
    } else if t[s1 + l] < t[s2 + l] {
      f := true;
    } else {
      assert t[s2 + l] < t[s1 + l];
      f := false;
    }
  }

  /** The suffixes at s1 and s2 agree on their first l characters. */
  ghost predicate Agree(t: seq<nat>, s1: nat, s2: nat, l: nat)
  {
    s1 + l <= |t| && s2 + l <= |t| && t[s1..s1 + l] == t[s2..s2 + l]
  }

  /** One more agreeing position extends the common run. */
  lemma Extend(t: seq<nat>, s1: nat, s2: nat, l: nat)
    requires s1 + l < |t| && s2 + l < |t| && t[s1 + l] == t[s2 + l]
    requires Agree(t, s1, s2, l)
    ensures Agree(t, s1, s2, l + 1)
  {
    assert t[s1..s1 + l + 1] == t[s1..s1 + l] + [t[s1 + l]];
    assert t[s2..s2 + l + 1] == t[s2..s2 + l] + [t[s2 + l]];
  }

  /** Where the scan stops is the LCP of the suffixes, and the order is read off there. */
  lemma LceStop(t: seq<nat>, s1: nat, s2: nat, l: nat)
    requires Agree(t, s1, s2, l)
    requires s1 + l == |t| || s2 + l == |t| || t[s1 + l] != t[s2 + l]
    ensures l == Lcp(t[s1..], t[s2..])
    ensures LexLess(t[s1..], t[s2..]) <==>
      (s1 + l == |t| && s2 + l < |t|) || (s1 + l < |t| && s2 + l < |t| && t[s1 + l] < t[s2 + l])
  {
    var a, b := t[s1..], t[s2..];
    forall i | 0 <= i < l ensures a[i] == b[i] {
      assert a[i] == t[s1..s1 + l][i] && b[i] == t[s2..s2 + l][i];
    }
    LcpIs(a, b, l);
    LexLessAtLcp(a, b);
  }

  /** `lce(grammar, s1, s2)` of src/main.rs: the same scan, reading the text through
      `grammar[i]`; it answers for the text the grammar stands for. */
  method LceGrammar(g: Slp.Grammar, s1: nat, s2: nat) returns (l: nat, f: bool)
    requires Slp.Valid(g) && s1 <= Slp.Len(g) && s2 <= Slp.Len(g)
    ensures l == Lcp(Slp.Yield(g)[s1..], Slp.Yield(g)[s2..])
    ensures f <==> LexLess(Slp.Yield(g)[s1..], Slp.Yield(g)[s2..])
  {
    var n := Slp.Len(g);
    ghost var t := Slp.Yield(g);
    if s1 == s2 {
      LcpIs(t[s1..], t[s1..], n - s1);
      LexIrreflexive(t[s1..]);
      return n - s1, false;
    }
    l := ScanGrammar(g, t, n, s1, s2);
    LceStop(t, s1, s2, l);
    if s1 + l == n {
      f := true;
    } else if s2 + l == n {
      f := false;
    } else {
      var x := Slp.Index(g, s1 + l);
      var y := Slp.Index(g, s2 + l);
      if x < y {
        f := true;
      } else {
        assert y < x;
        f := false;
      }
    }
  }

  /** `grammar[i]`: symbol i of the text the grammar stands for. */
  method Symbol(g: Slp.Grammar, ghost t: seq<nat>, i: nat) returns (x: nat)
    requires Slp.Valid(g) && t == Slp.Yield(g) && i < |t|
    ensures x == t[i]
  {
    assert i < Slp.Len(g);
    x := Slp.Index(g, i);
  }

  /** The loop of `lce` over the grammar: advance while both positions are inside
      the text and read the same symbol. */
  method ScanGrammar(g: Slp.Grammar, ghost t: seq<nat>, n: nat, s1: nat, s2: nat) returns (l: nat)
    requires Slp.Valid(g) && t == Slp.Yield(g) && n == |t| && s1 <= n && s2 <= n
    ensures Agree(t, s1, s2, l)
    ensures s1 + l == n || s2 + l == n || t[s1 + l] != t[s2 + l]
  {
    l := 0;
    while s1 + l < n && s2 + l < n
      invariant Agree(t, s1, s2, l)
      decreases n - l
    {
      var x := Symbol(g, t, s1 + l);
      var y := Symbol(g, t, s2 + l);
      if x != y {
        return;
      }
      Extend(t, s1, s2, l);
      l := l + 1;
    }
  }

  /** The suffix from i, empty when i is past the end (Python slicing). */
  function Suffix(t: seq<nat>, i: nat): (s: seq<nat>)
    ensures i <= |t| ==> s == t[i..]
    ensures i > |t| ==> s == []
  {
    if i <= |t| then t[i..] else []
  }

  /** `lce(T, i, j)` of scripts/create_col.py: the same scan without the equal-start
      shortcut, so the flag holds when suffix i is smaller than or equal to suffix j
      (for i == j it is True, where the Rust copies answer False). The closing print
      is unreachable. */
  method PyLce(t: seq<nat>, i: nat, j: nat) returns (k: nat, f: bool)
    ensures k == Lcp(Suffix(t, i), Suffix(t, j))
    ensures f <==> LexLess(Suffix(t, i), Suffix(t, j)) || Suffix(t, i) == Suffix(t, j)
  {
    var n := |t|;
    k := 0;
    while i + k < n && j + k < n && t[i + k] == t[j + k]
      invariant k == 0 || (i + k <= n && j + k <= n)
      invariant k == 0 || Agree(t, i, j, k)
      decreases n - k
    {
      Extend(t, i, j, k);
      k := k + 1;
    }
    ghost var a, b := Suffix(t, i), Suffix(t, j);
    assert |a| >= k && |b| >= k && forall x :: 0 <= x < k ==> a[x] == b[x] by {
      if k > 0 {
        assert a == t[i..] && b == t[j..];
        forall x | 0 <= x < k ensures a[x] == b[x] {
          assert a[x] == t[i..i + k][x] && b[x] == t[j..j + k][x];
        }
      }
    }
    assert i + k < n ==> a[k] == t[i + k];
    assert j + k < n ==> b[k] == t[j + k];
    LcpIs(a, b, k);
    LexLessAtLcp(a, b);
    if i + k >= n {
      if |b| == k {
        assert a == b;
      }
      f := true;
    } else if j + k >= n {
      assert a != b;
      f := false;
    } else if t[i + k] < t[j + k] {
      f := true;
    } else {
      assert t[j + k] < t[i + k];
      f := false;
    }
  }

  /** The byte string of an ASCII literal. */
  function Bytes(s: string): (b: seq<nat>)
    ensures |b| == |s| && forall i :: 0 <= i < |s| ==> b[i] == s[i] as nat
  {
    seq(|s|, i requires 0 <= i < |s| => s[i] as nat)
  }

  /** The unit tests of `lce` in src/bin/main.rs: a run of A's against itself... */
  lemma LceExampleRun()
    ensures var t := Bytes("AAAAAAAAAA$");
      Lcp(t[0..], t[5..]) == 5 && !LexLess(t[0..], t[5..])
  {
    var t := Bytes("AAAAAAAAAA$");
    LceStop(t, 0, 5, 5);
  }

  /** ...two equal halves... */
  lemma LceExampleHalves()
    ensures var t := Bytes("AAAA$AAAA$");
      Lcp(t[0..], t[5..]) == 5 && !LexLess(t[0..], t[5..])
  {
    var t := Bytes("AAAA$AAAA$");
    LceStop(t, 0, 5, 5);
  }

  /** ...a mismatch after six characters... */
  lemma LceExampleMismatch()
    ensures var t := Bytes("AGCTGCTGCTTGATGCTGATCG$");
      Lcp(t[1..], t[4..]) == 6 && LexLess(t[1..], t[4..])
  {
    var t := Bytes("AGCTGCTGCTTGATGCTGATCG$");
    assert t[1] == t[4] && t[2] == t[5] && t[3] == t[6];
    assert t[4] == t[7] && t[5] == t[8] && t[6] == t[9];
    assert t[1..7] == t[4..10];
    LceStop(t, 1, 4, 6);
  }

  /** ...and a suffix against itself. */
  lemma LceExampleSelf()
    ensures var t := Bytes("AGCTGCTGCTTGATGCTGATCG$");
      Lcp(t[0..], t[0..]) == 23 && !LexLess(t[0..], t[0..])
  {
    var t := Bytes("AGCTGCTGCTTGATGCTGATCG$");
    LcpIs(t[0..], t[0..], 23);
    LexIrreflexive(t[0..]);
  }

  // ---------------------------------------------------------------------------
  // The binary searches

  /** Suffix s sorts before every text that starts with the `len` characters of the
      pattern at `pos`: it shares fewer than `len` with it and is smaller. */
  ghost predicate Below(t: seq<nat>, s: nat, pos: nat, len: nat)
    requires s <= |t| && pos <= |t|
  {
    Lcp(t[s..], t[pos..]) < len && LexLess(t[s..], t[pos..])
  }

  /** Suffix s sorts after them: it shares fewer than `len` and is not smaller. */
  ghost predicate Above(t: seq<nat>, s: nat, pos: nat, len: nat)
    requires s <= |t| && pos <= |t|
  {
    Lcp(t[s..], t[pos..]) < len && !LexLess(t[s..], t[pos..])
  }

  predicate StartsIn(t: seq<nat>, sa: seq<nat>)
  {
    forall k :: 0 <= k < |sa| ==> sa[k] <= |t|
  }

  /** `get_lower`: bisect with l < r until they are neighbours; l moves up over
      suffixes below the pattern, r down over the others. Rank 0 is never probed:
      the result r is in [1, |sa|], rank r - 1 is 0 or below, and rank r is not. An
      empty suffix array underflows `r - 1`. */
  method GetLower(t: seq<nat>, pos: nat, len: nat, sa: seq<nat>) returns (r: nat)
    requires |sa| > 0 && pos <= |t| && StartsIn(t, sa)
    ensures 1 <= r <= |sa|
    ensures r - 1 == 0 || Below(t, sa[r - 1], pos, len)
    ensures r == |sa| || !Below(t, sa[r], pos, len)
  {
    var l := 0;
    r := |sa|;
    while l < r - 1
      invariant 0 <= l < r <= |sa|
      invariant l == 0 || Below(t, sa[l], pos, len)
      invariant r == |sa| || !Below(t, sa[r], pos, len)
      decreases r - l
    {
      var m := (l + r) / 2;
      var e, smaller := LceText(t, sa[m], pos);
      if e < len && smaller {
        l := m;
      } else {
        r := m;
      }
    }
  }

  /** `get_upper`: the mirror image; r moves down over suffixes above the pattern. */
  method GetUpper(t: seq<nat>, pos: nat, len: nat, sa: seq<nat>) returns (r: nat)
    requires |sa| > 0 && pos <= |t| && StartsIn(t, sa)
    ensures 1 <= r <= |sa|
    ensures r - 1 == 0 || !Above(t, sa[r - 1], pos, len)
    ensures r == |sa| || Above(t, sa[r], pos, len)
  {
    var l := 0;
    r := |sa|;
    while l < r - 1
      invariant 0 <= l < r <= |sa|
      invariant l == 0 || !Above(t, sa[l], pos, len)
      invariant r == |sa| || Above(t, sa[r], pos, len)
      decreases r - l
    {
      var m := (l + r) / 2;
      var e, smaller := LceText(t, sa[m], pos);
      if e < len && !smaller {
        r := m;
      } else {
        l := m;
      }
    }
  }

  /** The suffixes at the listed starts never decrease from left to right. The arrays
      the searches run on are the sampled ones, which repeat an entry at every run
      boundary, so equal neighbours are allowed. */
  predicate SuffixesNonDecreasing(t: seq<nat>, sa: seq<nat>)
  {
    StartsIn(t, sa) && forall a, b :: 0 <= a < b < |sa| ==> !LexLess(t[sa[b]..], t[sa[a]..])
  }

  /** A strictly sorted suffix array qualifies... */
  lemma SortedNonDecreasing(t: seq<nat>, sa: seq<nat>)
    requires SuffixesSorted(t, sa)
    ensures SuffixesNonDecreasing(t, sa)
  {
    forall a, b | 0 <= a < b < |sa| ensures !LexLess(t[sa[b]..], t[sa[a]..]) {
      LexAsymmetric(t[sa[a]..], t[sa[b]..]);
    }
  }

  /** ...and so does any sampling of it that picks ranks in order, repeats included:
      `ssa[k] == sa[at[k]]` with `at` non-decreasing, as `get_sampled_arrays` pushes
      the first and the last rank of every run. */
  lemma SampledNonDecreasing(t: seq<nat>, sa: seq<nat>, at: seq<nat>, ssa: seq<nat>)
    requires SuffixesSorted(t, sa)
    requires |ssa| == |at| && forall k :: 0 <= k < |at| ==> at[k] < |sa| && ssa[k] == sa[at[k]]
    requires forall a, b :: 0 <= a < b < |at| ==> at[a] <= at[b]
    ensures SuffixesNonDecreasing(t, ssa)
  {
    forall a, b | 0 <= a < b < |ssa| ensures !LexLess(t[ssa[b]..], t[ssa[a]..]) {
      if at[a] < at[b] {
        LexAsymmetric(t[sa[at[a]]..], t[sa[at[b]]..]);
      } else {
        LexIrreflexive(t[ssa[a]..]);
      }
    }
  }

  /** Over non-decreasing suffixes, "below" holds on a prefix of the ranks... */
  lemma BelowDownward(t: seq<nat>, s1: nat, s2: nat, pos: nat, len: nat)
    requires s1 <= |t| && s2 <= |t| && pos <= |t|
    requires !LexLess(t[s2..], t[s1..]) && Below(t, s2, pos, len)
    ensures Below(t, s1, pos, len)
  {
    if t[s1..] != t[s2..] {
      LexTotal(t[s1..], t[s2..]);
      LcpOfSorted(t[s1..], t[s2..], t[pos..]);
      LexTransitive(t[s1..], t[s2..], t[pos..]);
    }
  }

  /** ...and "above" on a suffix of them. */
  lemma AboveUpward(t: seq<nat>, s1: nat, s2: nat, pos: nat, len: nat)
    requires s1 <= |t| && s2 <= |t| && pos <= |t|
    requires !LexLess(t[s2..], t[s1..]) && Above(t, s1, pos, len)
    ensures Above(t, s2, pos, len)
  {
    var a, b, p := t[s1..], t[s2..], t[pos..];
    if a == b {
      return;
    }
    LexTotal(a, b);
    LcpSymmetric(a, p);
    LcpSymmetric(b, p);
    if a == p {
      LcpIs(a, a, |a|);
      LcpSymmetric(a, b);
      LexAsymmetric(a, b);
    } else {
      LexTotal(a, p);
      LcpOfSorted(p, a, b);
      LexTransitive(p, a, b);
      LexAsymmetric(p, b);
    }
  }

  /** With non-decreasing suffixes the searches split the ranks 1.. exactly: `get_lower` at the
      first rank not below the pattern, `get_upper` at the first rank above it, so
      lower <= upper and the ranks in between are the suffixes that start with the
      pattern's `len` characters (or, at the end of the text, run out inside them). */
  lemma SearchPartition(t: seq<nat>, pos: nat, len: nat, sa: seq<nat>, lower: nat, upper: nat)
    requires |sa| > 0 && pos <= |t| && SuffixesNonDecreasing(t, sa)
    requires 1 <= lower <= |sa| && (lower - 1 == 0 || Below(t, sa[lower - 1], pos, len))
    requires lower == |sa| || !Below(t, sa[lower], pos, len)
    requires 1 <= upper <= |sa| && (upper - 1 == 0 || !Above(t, sa[upper - 1], pos, len))
    requires upper == |sa| || Above(t, sa[upper], pos, len)
    ensures forall k :: 1 <= k < lower ==> Below(t, sa[k], pos, len)
    ensures forall k :: lower <= k < |sa| ==> !Below(t, sa[k], pos, len)
    ensures forall k :: 1 <= k < upper ==> !Above(t, sa[k], pos, len)
    ensures forall k :: upper <= k < |sa| ==> Above(t, sa[k], pos, len)
    ensures lower <= upper
  {
    forall k | 1 <= k < lower - 1 ensures Below(t, sa[k], pos, len) {
      BelowDownward(t, sa[k], sa[lower - 1], pos, len);
    }
    forall k | lower < k < |sa| ensures !Below(t, sa[k], pos, len) {
      if Below(t, sa[k], pos, len) {
        BelowDownward(t, sa[lower], sa[k], pos, len);
      }
    }
    forall k | 1 <= k < upper - 1 ensures !Above(t, sa[k], pos, len) {
      if Above(t, sa[k], pos, len) {
        AboveUpward(t, sa[k], sa[upper - 1], pos, len);
      }
    }
    forall k | upper < k < |sa| ensures Above(t, sa[k], pos, len) {
      AboveUpward(t, sa[upper], sa[k], pos, len);
    }
    if upper < |sa| {
      assert !Below(t, sa[upper], pos, len) by {
        assert Above(t, sa[upper], pos, len);
      }
    }
  }

  // ---------------------------------------------------------------------------
  // list_unique

  /** `list_unique` of src/main.rs: every tag of the range once, with the sa value of its
      last occurrence (later inserts into the hash map replace earlier ones). The
      iteration order of the map is left out: the result is the map itself. `create_map`
      of src/naive.rs is the same loop, with segment names as keys and their sequences
      as values. */
  method ListUnique<T(==), V>(sa: seq<V>, tag: seq<T>) returns (m: map<T, V>)
    requires |sa| >= |tag|
    ensures m.Keys == set i | 0 <= i < |tag| :: tag[i]
    ensures forall i :: 0 <= i < |tag| && (forall j :: i < j < |tag| ==> tag[j] != tag[i]) ==> m[tag[i]] == sa[i]
  {
    m := map[];
    for i := 0 to |tag|
      invariant m.Keys == set k | 0 <= k < i :: tag[k]
      invariant forall k :: 0 <= k < i && (forall j :: k < j < i ==> tag[j] != tag[k]) ==> m[tag[k]] == sa[k]
    {
      m := m[tag[i] := sa[i]];
    }
  }

  /** `list_unique` of src/bin/main.rs: the distinct tags, each once. */
  method ListUniqueSet<T(==)>(tag: seq<T>) returns (s: set<T>)
    ensures forall x :: x in s <==> exists i :: 0 <= i < |tag| && tag[i] == x
  {
    s := {};
    for i := 0 to |tag|
      invariant forall x :: x in s <==> exists k :: 0 <= k < i && tag[k] == x
    {
      s := s + {tag[i]};
    }
  }

  /** `get_graph_positions` of src/bin/main.rs: the distinct tags of the ranks between
      the two bounds. With non-decreasing suffixes the bounds never cross, so the slice exists. */
  method GraphPositions<T(==)>(t: seq<nat>, pos: nat, len: nat, sa: seq<nat>, tag: seq<T>)
    returns (lower: nat, upper: nat, s: set<T>)
    requires |sa| > 0 && |tag| == |sa| && pos <= |t| && SuffixesNonDecreasing(t, sa)
    ensures 1 <= lower <= upper <= |sa|
    ensures forall k :: lower <= k < upper ==> !Below(t, sa[k], pos, len) && !Above(t, sa[k], pos, len)
    ensures forall x :: x in s <==> exists k :: lower <= k < upper && tag[k] == x
  {
    lower := GetLower(t, pos, len, sa);
    upper := GetUpper(t, pos, len, sa);
    SearchPartition(t, pos, len, sa, lower, upper);
    var range := tag[lower..upper];
    s := ListUniqueSet(range);
    forall x ensures x in s <==> exists k :: lower <= k < upper && tag[k] == x {
      if x in s {
        var i :| 0 <= i < |range| && range[i] == x;
        assert range[i] == tag[lower + i];
      }
      if exists k :: lower <= k < upper && tag[k] == x {
        var k :| lower <= k < upper && tag[k] == x;
        assert range[k - lower] == x;
      }
    }
  }
}
