/** The permutation helpers of the tag-array construction (`permutation_invert`,
    `permutation_apply`, `argsort` in src/pf.rs and its copies). Vectors of
    `usize` are sequences of naturals; the buffers the source fills by index
    (`vec![0; n]` followed by `result[perm[i]] = …`) are arrays. */
module Permutations {

  /** Every entry is a valid index of the vector: writing at `result[p[i]]` cannot go out of range. */
  predicate InRange(p: seq<nat>)
  {
    forall i :: 0 <= i < |p| ==> p[i] < |p|
  }

  /** `p` lists each of 0 .. |p|-1 exactly once. */
  predicate IsPermutation(p: seq<nat>)
  {
    InRange(p) && forall i, j :: 0 <= i < j < |p| ==> p[i] != p[j]
  }

  /** `q` undoes `p` from both sides. */
  predicate IsInverse(p: seq<nat>, q: seq<nat>)
  {
    |q| == |p| && InRange(p) && InRange(q) &&
    (forall i :: 0 <= i < |p| ==> q[p[i]] == i) &&
    (forall j :: 0 <= j < |q| ==> p[q[j]] == j)
  }

  // ---------------------------------------------------------------------------
  // Pigeonhole: a permutation hits every slot

  function Image(p: seq<nat>): set<nat>
  {
    set i | 0 <= i < |p| :: p[i]
  }

  lemma {:induction false} ImageCard(p: seq<nat>)
    requires forall i, j :: 0 <= i < j < |p| ==> p[i] != p[j]
    ensures |Image(p)| == |p|
    decreases |p|
  {
    if |p| > 0 {
      var q := p[..|p| - 1];
      ImageCard(q);
      assert Image(p) == Image(q) + {p[|p| - 1]};
      assert p[|p| - 1] !in Image(q);
    }
  }

  lemma {:induction false} SubsetCard(a: set<nat>, b: set<nat>)
    requires a <= b
    ensures |a| <= |b|
    decreases |b|
  {
    if b != {} {
      var x :| x in b;
      SubsetCard(a - {x}, b - {x});
    }
  }

  /** An injective listing of 0 .. n-1 of length n reaches every slot. */
  lemma PermutationOnto(p: seq<nat>, j: nat)
    requires IsPermutation(p) && j < |p|
    ensures exists i :: 0 <= i < |p| && p[i] == j
  {
    var slots := Image(Range(|p|));
    ImageCard(p);
    ImageCard(Range(|p|));
    assert Range(|p|)[j] == j;
    assert Image(p) <= slots by {
      forall i | 0 <= i < |p| ensures p[i] in slots { assert Range(|p|)[p[i]] == p[i]; }
    }
    if j !in Image(p) {
      SubsetCard(Image(p), slots - {j});
      assert false;
    }
  }

  // ---------------------------------------------------------------------------
  // permutation_invert

  /** `permutation_invert`: `inverse[perm[i]] = i` for every i, in increasing i.
      The source only needs every entry to be a valid index; for a permutation
      the result is its two-sided inverse and again a permutation. */
  method Invert(perm: seq<nat>) returns (inv: seq<nat>)
    requires InRange(perm)
    ensures |inv| == |perm| && InRange(inv)
    ensures forall i :: 0 <= i < |perm| ==> i <= inv[perm[i]] && perm[inv[perm[i]]] == perm[i]
    ensures IsPermutation(perm) ==> IsInverse(perm, inv) && IsPermutation(inv)
  {
    var a := new nat[|perm|](_ => 0);
    for i := 0 to |perm|
      invariant forall k :: 0 <= k < i ==> k <= a[perm[k]] < i && perm[a[perm[k]]] == perm[k]
      invariant forall j :: 0 <= j < a.Length ==> a[j] < a.Length
    {
      a[perm[i]] := i;
    }
    inv := a[..];
    if IsPermutation(perm) {
      InvertOfPermutation(perm, inv);
    }
  }

  /** What the last writer of each slot leaves behind is the inverse, when no slot is written twice. */
  lemma InvertOfPermutation(perm: seq<nat>, inv: seq<nat>)
    requires IsPermutation(perm) && |inv| == |perm| && InRange(inv)
    requires forall i :: 0 <= i < |perm| ==> perm[inv[perm[i]]] == perm[i]
    ensures IsInverse(perm, inv) && IsPermutation(inv)
  {
    forall i | 0 <= i < |perm| ensures inv[perm[i]] == i {
      var k := inv[perm[i]];
      assert perm[k] == perm[i];
    }
    forall j | 0 <= j < |inv| ensures perm[inv[j]] == j {
      PermutationOnto(perm, j);
    }
    forall x, y | 0 <= x < y < |inv| ensures inv[x] != inv[y] {
      assert perm[inv[x]] == x && perm[inv[y]] == y;
    }
  }

  // ---------------------------------------------------------------------------
  // permutation_apply

  /** `permutation_apply`: `result[perm[i]] = data[i]` over a zeroed vector of |perm|
      entries. Slots no entry of `perm` names stay 0; through a permutation every
      element of `data` lands at the place `perm` assigns it. */
  method Apply(perm: seq<nat>, data: seq<nat>) returns (r: seq<nat>)
    requires InRange(perm) && |perm| <= |data|
    ensures |r| == |perm|
    ensures forall x :: 0 <= x < |r| && x !in perm ==> r[x] == 0
    ensures IsPermutation(perm) ==> forall i :: 0 <= i < |perm| ==> r[perm[i]] == data[i]
  {
    var a := new nat[|perm|](_ => 0);
    for i := 0 to |perm|
      invariant forall x :: 0 <= x < a.Length && x !in perm[..i] ==> a[x] == 0
      invariant IsPermutation(perm) ==> forall k :: 0 <= k < i ==> a[perm[k]] == data[k]
    {
      a[perm[i]] := data[i];
      assert perm[..i + 1] == perm[..i] + [perm[i]];
    }
    assert perm[..|perm|] == perm;
    r := a[..];
  }

  /** Placing the entries of `d` through a permutation rearranges them: the same multiset. */
  lemma {:induction false} PlacedMultiset(p: seq<nat>, d: seq<nat>, r: seq<nat>)
    requires IsPermutation(p) && |d| == |p| && |r| == |p|
    requires forall i :: 0 <= i < |p| ==> r[p[i]] == d[i]
    ensures multiset(r) == multiset(d)
    decreases |p|
  {
    var n := |p|;
    if n > 0 {
      var j := p[n - 1];
      var r' := r[..j] + r[j + 1..];
      var d' := d[..n - 1];
      var p' := seq(n - 1, i requires 0 <= i < n - 1 => if p[i] > j then p[i] - 1 else p[i]);
      forall i | 0 <= i < n - 1 ensures p'[i] < n - 1 && r'[p'[i]] == d'[i] {
        assert p[i] != j;
      }
      forall a, b | 0 <= a < b < n - 1 ensures p'[a] != p'[b] {
        assert p[a] != p[b] && p[a] != j && p[b] != j;
      }
      PlacedMultiset(p', d', r');
      assert r == r[..j] + [r[j]] + r[j + 1..];
      assert d == d' + [d[n - 1]];
    }
  }

  // ---------------------------------------------------------------------------
  // argsort

  /** Position i comes before position j when (d[i], i) < (d[j], j) lexicographically:
      the order of the (value, index) pairs that `argsort` sorts. */
  predicate Before(d: seq<nat>, i: nat, j: nat)
    requires i < |d| && j < |d|
  {
    d[i] < d[j] || (d[i] == d[j] && i < j)
  }

  /** `Before` as a comparison of indices. */
  function ByValue(d: seq<nat>): (nat, nat) -> bool
  {
    (i: nat, j: nat) => i < |d| && j < |d| && Before(d, i, j)
  }

  /** `lt` orders the indices 0 .. n-1 strictly and totally. */
  predicate StrictOrder(lt: (nat, nat) -> bool, n: nat)
  {
    (forall a: nat :: a < n ==> !lt(a, a)) &&
    (forall a: nat, b: nat :: a < n && b < n && a != b ==> lt(a, b) || lt(b, a)) &&
    (forall a: nat, b: nat, c: nat :: a < n && b < n && c < n && lt(a, b) && lt(b, c) ==> lt(a, c))
  }

  lemma ByValueStrict(d: seq<nat>)
    ensures StrictOrder(ByValue(d), |d|)
  {
  }

  /** Indices below n listed in strictly increasing `lt` order. */
  predicate SortedBy(lt: (nat, nat) -> bool, n: nat, o: seq<nat>)
  {
    (forall a :: 0 <= a < |o| ==> o[a] < n) &&
    (forall a, b :: 0 <= a < b < |o| ==> lt(o[a], o[b]))
  }

  /** Inserting index x into a listing sorted by `lt`. */
  function InsertByKey(lt: (nat, nat) -> bool, x: nat, o: seq<nat>): seq<nat>
  {
    if |o| == 0 then [x]
    else if lt(x, o[0]) then [x] + o
    else [o[0]] + InsertByKey(lt, x, o[1..])
  }

  /** The indices 0 .. n-1 in increasing `lt` order. This is what a library sort
      (`sort_unstable`) leaves in the index column when the keys it compares are
      pairwise distinct: that order is the only sorted one. It is modelled by an
      insertion sort. */
  function SortIndices(lt: (nat, nat) -> bool, n: nat): seq<nat>
  {
    if n == 0 then [] else InsertByKey(lt, n - 1, SortIndices(lt, n - 1))
  }

  lemma {:induction false} InsertByKeyFacts(lt: (nat, nat) -> bool, n: nat, x: nat, o: seq<nat>)
    requires StrictOrder(lt, n) && x < n && SortedBy(lt, n, o) && x !in o
    ensures |InsertByKey(lt, x, o)| == |o| + 1
    ensures forall e :: e in InsertByKey(lt, x, o) <==> e == x || e in o
    ensures SortedBy(lt, n, InsertByKey(lt, x, o))
    decreases |o|
  {
    if |o| == 0 {
    } else if lt(x, o[0]) {
      forall b | 0 <= b < |o| ensures lt(x, o[b]) {
        if b > 0 { assert lt(o[0], o[b]); }
      }
      SortedCons(lt, n, x, o);
    } else {
      var t := o[1..];
      assert o == [o[0]] + t;
      InsertByKeyFacts(lt, n, x, t);
      var u := InsertByKey(lt, x, t);
      assert InsertByKey(lt, x, o) == [o[0]] + u;
      InsertBehindHead(lt, n, x, o, u);
    }
  }

  /** The head of a sorted listing, when x does not come before it, comes before x
      and so before everything in the listing with x inserted in the tail. */
  lemma InsertBehindHead(lt: (nat, nat) -> bool, n: nat, x: nat, o: seq<nat>, u: seq<nat>)
    requires StrictOrder(lt, n) && x < n && SortedBy(lt, n, o) && |o| > 0 && x !in o && !lt(x, o[0])
    requires SortedBy(lt, n, u) && forall e :: e in u ==> e == x || e in o[1..]
    ensures SortedBy(lt, n, [o[0]] + u)
  {
    var t := o[1..];
    assert x != o[0];
    forall b | 0 <= b < |u| ensures lt(o[0], u[b]) {
      assert u[b] in u;
      if u[b] != x {
        assert u[b] in t;
        var a :| 0 <= a < |t| && t[a] == u[b];
        assert o[a + 1] == u[b];
      }
    }
    SortedCons(lt, n, o[0], u);
  }

  /** A smaller index in front of a sorted listing keeps it sorted. */
  lemma SortedCons(lt: (nat, nat) -> bool, n: nat, x: nat, o: seq<nat>)
    requires x < n && SortedBy(lt, n, o)
    requires forall b :: 0 <= b < |o| ==> lt(x, o[b])
    ensures SortedBy(lt, n, [x] + o)
  {
    var r := [x] + o;
    forall a, b | 0 <= a < b < |r| ensures lt(r[a], r[b]) {
      assert r[b] == o[b - 1];
      if a > 0 { assert r[a] == o[a - 1]; }
    }
  }

  /** The sorted listing holds each of 0 .. n-1 once, in increasing order. */
  lemma SortIndicesFacts(lt: (nat, nat) -> bool, n: nat)
    requires StrictOrder(lt, n)
    ensures |SortIndices(lt, n)| == n
    ensures SortedBy(lt, n, SortIndices(lt, n))
    ensures IsPermutation(SortIndices(lt, n))
  {
    SortIndicesUpTo(lt, n, n);
    var o := SortIndices(lt, n);
    forall a, b | 0 <= a < b < |o| ensures o[a] != o[b] {
      assert lt(o[a], o[b]);
    }
  }

  lemma {:induction false} SortIndicesUpTo(lt: (nat, nat) -> bool, n: nat, m: nat)
    requires StrictOrder(lt, n) && m <= n
    ensures |SortIndices(lt, m)| == m
    ensures forall e :: e in SortIndices(lt, m) ==> e < m
    ensures SortedBy(lt, n, SortIndices(lt, m))
    decreases m
  {
    if m > 0 {
      var o := SortIndices(lt, m - 1);
      SortIndicesUpTo(lt, n, m - 1);
      assert m - 1 !in o;
      InsertByKeyFacts(lt, n, m - 1, o);
      assert SortIndices(lt, m) == InsertByKey(lt, m - 1, o);
    }
  }

  /** Listings sorted by the same strict order over the same indices coincide:
      the sorted order of distinct keys is unique. */
  lemma SortedUnique(lt: (nat, nat) -> bool, n: nat, o1: seq<nat>, o2: seq<nat>)
    requires StrictOrder(lt, n)
    requires |o1| == n && |o2| == n && IsPermutation(o1) && IsPermutation(o2)
    requires SortedBy(lt, n, o1) && SortedBy(lt, n, o2)
    ensures o1 == o2
  {
    forall a | 0 <= a < n ensures o1[a] == o2[a] {
      SortedUniqueUpTo(lt, n, o1, o2, a);
    }
  }

  lemma {:induction false} SortedUniqueUpTo(lt: (nat, nat) -> bool, n: nat, o1: seq<nat>, o2: seq<nat>, a: nat)
    requires StrictOrder(lt, n)
    requires |o1| == n && |o2| == n && IsPermutation(o1) && IsPermutation(o2)
    requires SortedBy(lt, n, o1) && SortedBy(lt, n, o2)
    requires a < n
    ensures forall k :: 0 <= k <= a ==> o1[k] == o2[k]
    decreases a
  {
    if a > 0 {
      SortedUniqueUpTo(lt, n, o1, o2, a - 1);
    }
    var x, y := o1[a], o2[a];
    PermutationOnto(o2, x);
    PermutationOnto(o1, y);
    var b :| 0 <= b < n && o2[b] == x;
    var c :| 0 <= c < n && o1[c] == y;
    assert forall k :: 0 <= k < a ==> o2[k] != x && o1[k] != y;
    assert b == a || lt(y, x);
    assert c == a || lt(x, y);
    assert !(lt(y, x) && lt(x, y));
  }

  /** Comparisons of neighbours are enough for a listing to be sorted by a strict order. */
  lemma {:induction false} SortedByNeighbours(lt: (nat, nat) -> bool, n: nat, o: seq<nat>)
    requires StrictOrder(lt, n)
    requires forall a :: 0 <= a < |o| ==> o[a] < n
    requires forall a :: 0 <= a < |o| - 1 ==> lt(o[a], o[a + 1])
    ensures SortedBy(lt, n, o)
    decreases |o|
  {
    if |o| > 1 {
      var t := o[1..];
      SortedByNeighbours(lt, n, t);
      forall b | 1 <= b < |o| ensures lt(o[0], o[b]) {
        if b > 1 { assert lt(o[1], o[b]) by { assert t[0] == o[1] && t[b - 1] == o[b]; } }
      }
      forall a, b | 0 <= a < b < |o| ensures lt(o[a], o[b]) {
        if a > 0 { assert t[a - 1] == o[a] && t[b - 1] == o[b]; }
      }
    }
  }

  /** 0, 1, …, n-1. */
  function Range(n: nat): (r: seq<nat>)
    ensures |r| == n
    ensures forall i :: 0 <= i < n ==> r[i] == i
  {
    if n == 0 then [] else Range(n - 1) + [n - 1]
  }

  /** `argsort`: sort the (value, index) pairs, keep the index column, invert it.
      The result gives every position its rank, ties broken by index. */
  method ArgSort(d: seq<nat>) returns (rank: seq<nat>)
    ensures |rank| == |d| && IsPermutation(rank)
    ensures forall i, j :: 0 <= i < |d| && 0 <= j < |d| ==> (rank[i] < rank[j] <==> Before(d, i, j))
  {
    var order := SortIndices(ByValue(d), |d|);
    ByValueStrict(d);
    SortIndicesFacts(ByValue(d), |d|);
    rank := Invert(order);
    forall i, j | 0 <= i < |d| && 0 <= j < |d| ensures rank[i] < rank[j] <==> Before(d, i, j) {
      assert order[rank[i]] == i && order[rank[j]] == j;
      if rank[i] < rank[j] {
        assert ByValue(d)(order[rank[i]], order[rank[j]]);
      } else if rank[j] < rank[i] {
        assert ByValue(d)(order[rank[j]], order[rank[i]]);
      }
    }
  }

  /** Placing each value at its rank sorts the values (the use `permutation_apply(argsort(d), d)`). */
  lemma PlacedByRankSorted(d: seq<nat>, rank: seq<nat>, r: seq<nat>)
    requires |rank| == |d| && IsPermutation(rank) && |r| == |d|
    requires forall i, j :: 0 <= i < |d| && 0 <= j < |d| ==> (rank[i] < rank[j] <==> Before(d, i, j))
    requires forall i :: 0 <= i < |d| ==> r[rank[i]] == d[i]
    ensures forall a, b :: 0 <= a < b < |r| ==> r[a] <= r[b]
    ensures multiset(r) == multiset(d)
  {
    forall a, b | 0 <= a < b < |r| ensures r[a] <= r[b] {
      PermutationOnto(rank, a);
      PermutationOnto(rank, b);
      var i :| 0 <= i < |d| && rank[i] == a;
      var j :| 0 <= j < |d| && rank[j] == b;
    }
    PlacedMultiset(rank, d, r);
  }
}
