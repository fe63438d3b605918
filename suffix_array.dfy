/** The suffix array of a text of naturals (src/arrays.rs, `SuffixArray::create`
    for `[usize]`): the start positions ordered by the suffixes they start, with
    Rust's slice ordering. */
module SuffixArrays {
  import opened Permutations

  /** Rust's `Ord` on slices: the first differing element decides, and a proper
      prefix comes first. */
  predicate LexLess(a: seq<nat>, b: seq<nat>)
    decreases |a|
  {
    if |a| == 0 then |b| > 0
    else if |b| == 0 then false
    else if a[0] != b[0] then a[0] < b[0]
    else LexLess(a[1..], b[1..])
  }

  lemma {:induction false} LexIrreflexive(a: seq<nat>)
    ensures !LexLess(a, a)
    decreases |a|
  {
    if |a| > 0 { LexIrreflexive(a[1..]); }
  }

  lemma {:induction false} LexTotal(a: seq<nat>, b: seq<nat>)
    requires a != b
    ensures LexLess(a, b) || LexLess(b, a)
    decreases |a|
  {
    if |a| > 0 && |b| > 0 && a[0] == b[0] {
      assert a == [a[0]] + a[1..] && b == [b[0]] + b[1..];
      LexTotal(a[1..], b[1..]);
    }
  }

  lemma {:induction false} LexTransitive(a: seq<nat>, b: seq<nat>, c: seq<nat>)
    requires LexLess(a, b) && LexLess(b, c)
    ensures LexLess(a, c)
    decreases |a|
  {
    if |a| > 0 && a[0] == b[0] && b[0] == c[0] {
      LexTransitive(a[1..], b[1..], c[1..]);
    }
  }

  /** A proper prefix sorts before the longer sequence. */
  lemma {:induction false} PrefixFirst(a: seq<nat>, b: seq<nat>)
    requires |b| > 0
    ensures LexLess(a, a + b)
    decreases |a|
  {
    if |a| > 0 {
      assert (a + b)[1..] == a[1..] + b;
      PrefixFirst(a[1..], b);
    }
  }

  /** Start positions compared by the suffixes they start. */
  function SuffixOrder(s: seq<nat>): (nat, nat) -> bool
  {
    (i: nat, j: nat) => i < |s| && j < |s| && LexLess(s[i..], s[j..])
  }

  /** Different start positions start different suffixes (their lengths differ),
      so the comparison is a strict total order. */
  lemma SuffixOrderStrict(s: seq<nat>)
    ensures StrictOrder(SuffixOrder(s), |s|)
  {
    var lt := SuffixOrder(s);
    forall a: nat | a < |s| ensures !lt(a, a) { LexIrreflexive(s[a..]); }
    forall a: nat, b: nat | a < |s| && b < |s| && a != b ensures lt(a, b) || lt(b, a) {
      assert |s[a..]| != |s[b..]|;
      LexTotal(s[a..], s[b..]);
    }
    forall a: nat, b: nat, c: nat | a < |s| && b < |s| && c < |s| && lt(a, b) && lt(b, c) ensures lt(a, c) {
      LexTransitive(s[a..], s[b..], s[c..]);
    }
  }

  /** The suffixes at the listed starts increase strictly from left to right. */
  predicate SuffixesSorted(s: seq<nat>, sa: seq<nat>)
  {
    (forall a :: 0 <= a < |sa| ==> sa[a] < |s|) &&
    (forall a, b :: 0 <= a < b < |sa| ==> LexLess(s[sa[a]..], s[sa[b]..]))
  }

  /** `create`: collect (suffix, start) for every start, sort the pairs, keep the
      starts. The result lists every start once, ordered by suffix. */
  method Create(s: seq<nat>) returns (sa: seq<nat>)
    ensures |sa| == |s| && IsPermutation(sa)
    ensures SuffixesSorted(s, sa)
  {
    var starts: seq<nat> := [];
    for i := 0 to |s|
      invariant starts == Range(i)
    {
      starts := starts + [i];
    }
    sa := SortIndices(SuffixOrder(s), |starts|);
    SuffixOrderStrict(s);
    SortIndicesFacts(SuffixOrder(s), |s|);
    OrderedStarts(s, sa);
  }

  /** Suffix order determines the array: any permutation with sorted suffixes is it. */
  lemma SuffixArrayUnique(s: seq<nat>, sa1: seq<nat>, sa2: seq<nat>)
    requires |sa1| == |s| && IsPermutation(sa1) && SuffixesSorted(s, sa1)
    requires |sa2| == |s| && IsPermutation(sa2) && SuffixesSorted(s, sa2)
    ensures sa1 == sa2
  {
    SuffixOrderStrict(s);
    var lt := SuffixOrder(s);
    assert SortedBy(lt, |s|, sa1) by {
      forall a, b | 0 <= a < b < |sa1| ensures lt(sa1[a], sa1[b]) { }
    }
    assert SortedBy(lt, |s|, sa2) by {
      forall a, b | 0 <= a < b < |sa2| ensures lt(sa2[a], sa2[b]) { }
    }
    SortedUnique(lt, |s|, sa1, sa2);
  }

  /** The unit test: the suffix array of [3, 1, 4, 2, 1, 3, 0] is [6, 4, 1, 3, 5, 0, 2]. */
  lemma TestSuffixArray(sa: seq<nat>)
    requires |sa| == 7 && IsPermutation(sa) && SuffixesSorted([3, 1, 4, 2, 1, 3, 0], sa)
    ensures sa == [6, 4, 1, 3, 5, 0, 2]
  {
    TestSuffixesSorted();
    SuffixArrayUnique([3, 1, 4, 2, 1, 3, 0], sa, [6, 4, 1, 3, 5, 0, 2]);
  }

  lemma TestSuffixesSorted()
    ensures IsPermutation([6, 4, 1, 3, 5, 0, 2])
    ensures SuffixesSorted([3, 1, 4, 2, 1, 3, 0], [6, 4, 1, 3, 5, 0, 2])
  {
    var s: seq<nat> := [3, 1, 4, 2, 1, 3, 0];
    var expected: seq<nat> := [6, 4, 1, 3, 5, 0, 2];
    TestPermutation();
    TestNeighbours();
    SuffixOrderStrict(s);
    SortedByNeighbours(SuffixOrder(s), 7, expected);
    OrderedStarts(s, expected);
  }

  lemma TestPermutation()
    ensures IsPermutation([6, 4, 1, 3, 5, 0, 2])
  {
  }

  /** Sorted by the suffix comparison means the suffixes are sorted. */
  lemma OrderedStarts(s: seq<nat>, o: seq<nat>)
    requires SortedBy(SuffixOrder(s), |s|, o)
    ensures SuffixesSorted(s, o)
  {
    forall a, b | 0 <= a < b < |o| ensures LexLess(s[o[a]..], s[o[b]..]) {
      assert SuffixOrder(s)(o[a], o[b]);
    }
  }

  lemma TestNeighbours()
    ensures var s: seq<nat> := [3, 1, 4, 2, 1, 3, 0];
      LexLess(s[6..], s[4..]) && LexLess(s[4..], s[1..]) && LexLess(s[1..], s[3..]) &&
      LexLess(s[3..], s[5..]) && LexLess(s[5..], s[0..]) && LexLess(s[0..], s[2..])
  {
    var s: seq<nat> := [3, 1, 4, 2, 1, 3, 0];
    assert s[4..] == [1, 3, 0] && s[1..] == [1, 4, 2, 1, 3, 0];
    assert s[5..] == [3, 0] && s[0..] == s;
  }
}
