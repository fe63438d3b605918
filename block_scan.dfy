/** The scan of the segment-join suffix array into blocks of suffixes that share
    the rest of their segment (the `while i < id.len()` loop of `print_tag_array`
    in src/bin/main2.rs and of `main` in src/bin/main3.rs and src/bin/main3/main.rs,
    and `Block::get_block_at` in src/pf.rs). The LCP array comes from the `bio`
    crate and is an input: entry q is the common prefix length of the suffixes at
    ranks q - 1 and q, and the entry past the last rank is -1. */
module BlockScan {
  import opened Wrappers
  import opened PfHelpers
  import opened MergeBlock

  /** Properties of the arrays the scan reads: one offset per rank, an LCP entry per
      rank plus a final negative one, and every offset within its segment. */
  predicate ScanInput(lcp: seq<int>, id: seq<nat>, pos: seq<nat>, len: seq<nat>)
  {
    |pos| == |id| && |lcp| == |id| + 1 && lcp[|id|] < 0 &&
    forall i :: 0 <= i < |id| ==> id[i] < |len| && pos[i] <= len[id[i]]
  }

  /** Characters of its segment left from the start of the suffix at rank i. */
  function Remaining(id: seq<nat>, pos: seq<nat>, len: seq<nat>, i: nat): nat
    requires i < |id| && |pos| == |id| && id[i] < |len| && pos[i] <= len[id[i]]
  {
    len[id[i]] - pos[i]
  }

  /** The first rank e >= j whose LCP with its predecessor is below rem. */
  function BlockEnd(lcp: seq<int>, rem: nat, j: nat): (e: nat)
    requires 0 < j < |lcp| && lcp[|lcp| - 1] < 0
    ensures j <= e < |lcp| && lcp[e] < rem
    ensures forall q :: j <= q < e ==> lcp[q] >= rem
    decreases |lcp| - j
  {
    if lcp[j] < rem then j else BlockEnd(lcp, rem, j + 1)
  }

  /** The blocks [a, b) the scan finds from rank i on: a rank with at most `overlap`
      characters left is skipped, any other starts a block that runs while the LCP
      stays at least its remaining length. */
  function Blocks(lcp: seq<int>, id: seq<nat>, pos: seq<nat>, len: seq<nat>, overlap: nat, i: nat): seq<(nat, nat)>
    requires ScanInput(lcp, id, pos, len)
    decreases |id| - i
  {
    if i >= |id| then []
    else if Remaining(id, pos, len, i) <= overlap then Blocks(lcp, id, pos, len, overlap, i + 1)
    else
      var j := BlockEnd(lcp, Remaining(id, pos, len, i), i + 1);
      [(i, j)] + Blocks(lcp, id, pos, len, overlap, j)
  }

  /** Block a..b starts at a rank with more than `overlap` characters left; inside it
      every LCP reaches that length and at b it drops below. */
  predicate IsBlock(lcp: seq<int>, id: seq<nat>, pos: seq<nat>, len: seq<nat>, overlap: nat, a: nat, b: nat)
    requires ScanInput(lcp, id, pos, len)
  {
    a < b <= |id| && Remaining(id, pos, len, a) > overlap &&
    lcp[b] < Remaining(id, pos, len, a) &&
    forall q :: a < q < b ==> lcp[q] >= Remaining(id, pos, len, a)
  }

  /** Scanning from rank i unfolds into a skip or one block and the scan after it. */
  lemma BlocksUnfold(lcp: seq<int>, id: seq<nat>, pos: seq<nat>, len: seq<nat>, overlap: nat, i: nat)
    requires ScanInput(lcp, id, pos, len) && i < |id|
    ensures Remaining(id, pos, len, i) <= overlap ==>
      Blocks(lcp, id, pos, len, overlap, i) == Blocks(lcp, id, pos, len, overlap, i + 1)
    ensures Remaining(id, pos, len, i) > overlap ==>
      var j := BlockEnd(lcp, Remaining(id, pos, len, i), i + 1);
      Blocks(lcp, id, pos, len, overlap, i) == [(i, j)] + Blocks(lcp, id, pos, len, overlap, j)
  {
  }

  /** bs holds real blocks from rank i on, one after another. */
  predicate OrderedBlocks(lcp: seq<int>, id: seq<nat>, pos: seq<nat>, len: seq<nat>, overlap: nat, i: nat, bs: seq<(nat, nat)>)
    requires ScanInput(lcp, id, pos, len)
  {
    (forall t :: 0 <= t < |bs| ==> i <= bs[t].0 && IsBlock(lcp, id, pos, len, overlap, bs[t].0, bs[t].1)) &&
    (forall t, u :: 0 <= t < u < |bs| ==> bs[t].1 <= bs[u].0)
  }

  /** Every rank from i on with more than `overlap` characters left lies in one of bs. */
  predicate CoveringBlocks(id: seq<nat>, pos: seq<nat>, len: seq<nat>, overlap: nat, i: nat, bs: seq<(nat, nat)>)
    requires |pos| == |id| && forall k :: 0 <= k < |id| ==> id[k] < |len| && pos[k] <= len[id[k]]
  {
    forall p :: i <= p < |id| && Remaining(id, pos, len, p) > overlap ==>
      exists t :: 0 <= t < |bs| && bs[t].0 <= p < bs[t].1
  }

  /** The blocks are real blocks, lie in [i, |id|) and follow one another without overlap. */
  lemma {:induction false} BlocksOrdered(lcp: seq<int>, id: seq<nat>, pos: seq<nat>, len: seq<nat>, overlap: nat, i: nat)
    requires ScanInput(lcp, id, pos, len)
    ensures OrderedBlocks(lcp, id, pos, len, overlap, i, Blocks(lcp, id, pos, len, overlap, i))
    decreases |id| - i
  {
    if i < |id| {
      BlocksUnfold(lcp, id, pos, len, overlap, i);
      if Remaining(id, pos, len, i) <= overlap {
        BlocksOrdered(lcp, id, pos, len, overlap, i + 1);
      } else {
        var j := BlockEnd(lcp, Remaining(id, pos, len, i), i + 1);
        BlocksOrdered(lcp, id, pos, len, overlap, j);
        assert IsBlock(lcp, id, pos, len, overlap, i, j);
        OrderedCons(lcp, id, pos, len, overlap, i, j, Blocks(lcp, id, pos, len, overlap, j));
      }
    }
  }

  /** A block i..j in front of ordered blocks from j on gives ordered blocks from i on. */
  lemma OrderedCons(lcp: seq<int>, id: seq<nat>, pos: seq<nat>, len: seq<nat>, overlap: nat, i: nat, j: nat,
                    rest: seq<(nat, nat)>)
    requires ScanInput(lcp, id, pos, len)
    requires IsBlock(lcp, id, pos, len, overlap, i, j) && OrderedBlocks(lcp, id, pos, len, overlap, j, rest)
    ensures OrderedBlocks(lcp, id, pos, len, overlap, i, [(i, j)] + rest)
  {
    var bs := [(i, j)] + rest;
    forall t | 0 < t < |bs| ensures bs[t] == rest[t - 1] && j <= bs[t].0 {
    }
    forall t, u | 0 <= t < u < |bs| ensures bs[t].1 <= bs[u].0 {
      if t > 0 {
        assert bs[t] == rest[t - 1] && bs[u] == rest[u - 1];
      }
    }
  }

  /** Every rank from i on with more than `overlap` characters left lies in one of the blocks. */
  lemma {:induction false} BlocksCover(lcp: seq<int>, id: seq<nat>, pos: seq<nat>, len: seq<nat>, overlap: nat, i: nat)
    requires ScanInput(lcp, id, pos, len)
    ensures CoveringBlocks(id, pos, len, overlap, i, Blocks(lcp, id, pos, len, overlap, i))
    decreases |id| - i
  {
    if i < |id| {
      var bs := Blocks(lcp, id, pos, len, overlap, i);
      BlocksUnfold(lcp, id, pos, len, overlap, i);
      if Remaining(id, pos, len, i) <= overlap {
        BlocksCover(lcp, id, pos, len, overlap, i + 1);
      } else {
        var j := BlockEnd(lcp, Remaining(id, pos, len, i), i + 1);
        var rest := Blocks(lcp, id, pos, len, overlap, j);
        BlocksCover(lcp, id, pos, len, overlap, j);
        forall p | i <= p < |id| && Remaining(id, pos, len, p) > overlap
          ensures exists t :: 0 <= t < |bs| && bs[t].0 <= p < bs[t].1
        {
          if p < j {
            assert bs[0].0 <= p < bs[0].1;
          } else {
            var t :| 0 <= t < |rest| && rest[t].0 <= p < rest[t].1;
            assert bs[t + 1] == rest[t];
          }
        }
      }
    }
  }

  /** Starting the scan at a rank with at most `overlap` characters left finds the same blocks
      as starting one rank later. */
  lemma BlocksSkip(lcp: seq<int>, id: seq<nat>, pos: seq<nat>, len: seq<nat>, overlap: nat, i: nat, k: nat)
    requires ScanInput(lcp, id, pos, len) && i <= k
    requires forall p :: i <= p < k && p < |id| ==> Remaining(id, pos, len, p) <= overlap
    ensures Blocks(lcp, id, pos, len, overlap, i) == Blocks(lcp, id, pos, len, overlap, k)
    decreases k - i
  {
    if i < k && i < |id| {
      BlocksSkip(lcp, id, pos, len, overlap, i + 1, k);
    }
  }

  lemma {:induction false} BlockEndIs(lcp: seq<int>, rem: nat, j0: nat, j: nat)
    requires 0 < j0 <= j < |lcp| && lcp[|lcp| - 1] < 0
    requires lcp[j] < rem && forall q :: j0 <= q < j ==> lcp[q] >= rem
    ensures BlockEnd(lcp, rem, j0) == j
    decreases j - j0
  {
    if lcp[j0] >= rem {
      BlockEndIs(lcp, rem, j0 + 1, j);
    }
  }

  /** The inner loop: step past every rank whose LCP still reaches `remaining`. */
  method FindEnd(lcp: seq<int>, remaining: nat, i: nat) returns (j: nat)
    requires i + 1 < |lcp| && lcp[|lcp| - 1] < 0
    ensures j == BlockEnd(lcp, remaining, i + 1)
  {
    j := i + 1;
    while lcp[j] >= remaining
      invariant i < j < |lcp| && forall q :: i + 1 <= q < j ==> lcp[q] >= remaining
      decreases |lcp| - j
    {
      j := j + 1;
    }
    BlockEndIs(lcp, remaining, i + 1, j);
  }

  /** Occurrences of the segments of the ranks in ids (the rows of one block). */
  function RowCount(ids: seq<nat>, rcRank: seq<seq<nat>>): nat
    requires forall k :: 0 <= k < |ids| ==> ids[k] < |rcRank|
    decreases |ids|
  {
    if |ids| == 0 then 0 else RowCount(ids[..|ids| - 1], rcRank) + |rcRank[ids[|ids| - 1]]|
  }

  /** A fresh block has as many outstanding occurrences as its rows' segments have occurrences. */
  lemma {:induction false} FreshOutstanding(ids: seq<nat>, rcRank: seq<seq<nat>>)
    requires forall k :: 0 <= k < |ids| ==> ids[k] < |rcRank|
    ensures Total(Pending(ids, rcRank, seq(|ids|, _ => 0))) == RowCount(ids, rcRank)
    decreases |ids|
  {
    if |ids| > 0 {
      var n := |ids| - 1;
      var p := Pending(ids, rcRank, seq(|ids|, _ => 0));
      assert p[..n] == Pending(ids[..n], rcRank, seq(n, _ => 0));
      FreshOutstanding(ids[..n], rcRank);
    }
  }

  /** The ranks a..b lie in the arrays and the segment of each has a rank list, with at
      least one occurrence (`Block::new` reads the first), and a start list at least as long. */
  predicate Occurring(id: seq<nat>, seqPos: seq<seq<nat>>, rcRank: seq<seq<nat>>, a: nat, b: nat)
  {
    a <= b <= |id| &&
    forall i :: a <= i < b ==> id[i] < |rcRank| && id[i] < |seqPos| && 0 < |rcRank[id[i]]| <= |seqPos[id[i]]|
  }

  /** Every one of the blocks bs is `Occurring`; ranks outside them are not read. */
  predicate BlocksOccur(id: seq<nat>, seqPos: seq<seq<nat>>, rcRank: seq<seq<nat>>, bs: seq<(nat, nat)>)
  {
    forall t :: 0 <= t < |bs| ==> Occurring(id, seqPos, rcRank, bs[t].0, bs[t].1)
  }

  /** The triple printed for occurrence q of the segment of rank p: the occurrence's
      start in the path text plus the rank's offset, the segment and the offset. */
  function TagOf(id: seq<nat>, pos: seq<nat>, seqPos: seq<seq<nat>>, p: nat, q: nat): (nat, nat, nat)
    requires p < |id| && p < |pos| && id[p] < |seqPos| && q < |seqPos[id[p]]|
  {
    (seqPos[id[p]][q] + pos[p], id[p], pos[p])
  }

  /** What draining a fresh `Block` over the rows a..b yields: the triple of every
      pair (row, occurrence) the merge takes, in the order it takes them. */
  function BlockOutput(id: seq<nat>, pos: seq<nat>, seqPos: seq<seq<nat>>, rcRank: seq<seq<nat>>, a: nat, b: nat): seq<(nat, nat, nat)>
    requires |id| == |pos| && Occurring(id, seqPos, rcRank, a, b)
  {
    TriplesOf(id[a..b], pos[a..b], seqPos, rcRank, PickOrder(id[a..b], rcRank, seq(b - a, _ => 0), FirstRanks(id[a..b], rcRank)))
  }

  /** A block prints one triple per occurrence of each of its rows' segments... */
  lemma BlockOutputLength(id: seq<nat>, pos: seq<nat>, seqPos: seq<seq<nat>>, rcRank: seq<seq<nat>>, a: nat, b: nat)
    requires |id| == |pos| && Occurring(id, seqPos, rcRank, a, b)
    ensures |BlockOutput(id, pos, seqPos, rcRank, a, b)| == RowCount(id[a..b], rcRank)
  {
    var ids, zeros := id[a..b], seq(b - a, _ => 0);
    PickOrderMembers(ids, rcRank, zeros, FirstRanks(ids, rcRank));
    FreshOutstanding(ids, rcRank);
  }

  /** ...the triple of every such occurrence is among them... */
  lemma BlockOutputHas(id: seq<nat>, pos: seq<nat>, seqPos: seq<seq<nat>>, rcRank: seq<seq<nat>>, a: nat, b: nat, p: nat, q: nat)
    requires |id| == |pos| && Occurring(id, seqPos, rcRank, a, b)
    requires a <= p < b && q < |rcRank[id[p]]|
    ensures TagOf(id, pos, seqPos, p, q) in BlockOutput(id, pos, seqPos, rcRank, a, b)
  {
    var ids, poss, zeros := id[a..b], pos[a..b], seq(b - a, _ => 0);
    BlockRows(id, pos, seqPos, rcRank, a, b);
    var ps := PickOrder(ids, rcRank, zeros, FirstRanks(ids, rcRank));
    assert ids[p - a] == id[p] && poss[p - a] == pos[p];
    var t := PickOrderFinds(ids, rcRank, zeros, FirstRanks(ids, rcRank), (p - a, q));
    var out := BlockOutput(id, pos, seqPos, rcRank, a, b);
    assert out == TriplesOf(ids, poss, seqPos, rcRank, ps);
    assert out[t] == TagOf(id, pos, seqPos, p, q);
  }

  /** ...and with ascending rank lists it takes them in ascending order of right-context rank. */
  lemma BlockOutputSorted(id: seq<nat>, pos: seq<nat>, seqPos: seq<seq<nat>>, rcRank: seq<seq<nat>>, a: nat, b: nat)
    requires |id| == |pos| && Occurring(id, seqPos, rcRank, a, b) && SortedRows(id[a..b], rcRank)
    ensures Ascending(RanksOf(id[a..b], rcRank, PickOrder(id[a..b], rcRank, seq(b - a, _ => 0), FirstRanks(id[a..b], rcRank))))
  {
    PickOrderSorted(id[a..b], rcRank, seq(b - a, _ => 0), FirstRanks(id[a..b], rcRank));
  }

  /** What printing the blocks bs one after another yields: each block's drained triples. */
  function BlocksOutput(id: seq<nat>, pos: seq<nat>, seqPos: seq<seq<nat>>, rcRank: seq<seq<nat>>, bs: seq<(nat, nat)>): seq<(nat, nat, nat)>
    requires |id| == |pos| && BlocksOccur(id, seqPos, rcRank, bs)
    decreases |bs|
  {
    if |bs| == 0 then []
    else
      var last := bs[|bs| - 1];
      BlocksOutput(id, pos, seqPos, rcRank, bs[..|bs| - 1]) + BlockOutput(id, pos, seqPos, rcRank, last.0, last.1)
  }

  /** The triple of every occurrence of every row of one of the blocks is printed. */
  lemma {:induction false} BlocksOutputHas(id: seq<nat>, pos: seq<nat>, seqPos: seq<seq<nat>>, rcRank: seq<seq<nat>>,
                                           bs: seq<(nat, nat)>, t: nat, p: nat, q: nat)
    requires |id| == |pos| && BlocksOccur(id, seqPos, rcRank, bs)
    requires t < |bs| && bs[t].0 <= p < bs[t].1 && Occurring(id, seqPos, rcRank, bs[t].0, bs[t].1) && q < |rcRank[id[p]]|
    ensures TagOf(id, pos, seqPos, p, q) in BlocksOutput(id, pos, seqPos, rcRank, bs)
    decreases |bs|
  {
    var n := |bs| - 1;
    if t == n {
      BlockOutputHas(id, pos, seqPos, rcRank, bs[n].0, bs[n].1, p, q);
    } else {
      assert bs[..n][t] == bs[t];
      BlocksOutputHas(id, pos, seqPos, rcRank, bs[..n], t, p, q);
    }
  }

  /** A rank whose suffix is too short is skipped: the blocks so far followed by the
      blocks from i on are those followed by the blocks from i + 1 on. */
  lemma ScanSkip(lcp: seq<int>, id: seq<nat>, pos: seq<nat>, len: seq<nat>, overlap: nat,
                 all: seq<(nat, nat)>, blocks: seq<(nat, nat)>, i: nat)
    requires ScanInput(lcp, id, pos, len) && i < |id| && Remaining(id, pos, len, i) <= overlap
    requires all == blocks + Blocks(lcp, id, pos, len, overlap, i)
    ensures all == blocks + Blocks(lcp, id, pos, len, overlap, i + 1)
  {
    BlocksUnfold(lcp, id, pos, len, overlap, i);
  }

  /** A rank whose suffix is long enough opens the block i..j, the next of all the
      blocks, and the scan goes on at j. */
  lemma ScanBlock(lcp: seq<int>, id: seq<nat>, pos: seq<nat>, len: seq<nat>, overlap: nat,
                  all: seq<(nat, nat)>, blocks: seq<(nat, nat)>, i: nat, j: nat)
    requires ScanInput(lcp, id, pos, len) && i < |id| && Remaining(id, pos, len, i) > overlap
    requires j == BlockEnd(lcp, Remaining(id, pos, len, i), i + 1)
    requires all == blocks + Blocks(lcp, id, pos, len, overlap, i)
    ensures |blocks| < |all| && all[|blocks|] == (i, j) && all[..|blocks| + 1] == blocks + [(i, j)]
    ensures all == (blocks + [(i, j)]) + Blocks(lcp, id, pos, len, overlap, j)
  {
    BlocksUnfold(lcp, id, pos, len, overlap, i);
    var rest := Blocks(lcp, id, pos, len, overlap, j);
    assert blocks + ([(i, j)] + rest) == (blocks + [(i, j)]) + rest;
  }

  /** The blocks printed so far and one more. */
  lemma PrintedSnoc(id: seq<nat>, pos: seq<nat>, seqPos: seq<seq<nat>>, rcRank: seq<seq<nat>>,
                    all: seq<(nat, nat)>, n: nat)
    requires |id| == |pos| && BlocksOccur(id, seqPos, rcRank, all) && n < |all|
    ensures BlocksOccur(id, seqPos, rcRank, all[..n]) && BlocksOccur(id, seqPos, rcRank, all[..n + 1])
    ensures Occurring(id, seqPos, rcRank, all[n].0, all[n].1)
    ensures BlocksOutput(id, pos, seqPos, rcRank, all[..n + 1]) ==
      BlocksOutput(id, pos, seqPos, rcRank, all[..n]) + BlockOutput(id, pos, seqPos, rcRank, all[n].0, all[n].1)
  {
    assert all[..n + 1][..n] == all[..n];
  }

  /** After the block i..j, the next of all the blocks, has printed `emitted`, the
      output is that of the blocks so far and this one. */
  lemma PrintedStep(id: seq<nat>, pos: seq<nat>, seqPos: seq<seq<nat>>, rcRank: seq<seq<nat>>,
                    all: seq<(nat, nat)>, blocks: seq<(nat, nat)>, i: nat, j: nat,
                    out: seq<(nat, nat, nat)>, emitted: seq<(nat, nat, nat)>)
    requires |id| == |pos| && BlocksOccur(id, seqPos, rcRank, all) && BlocksOccur(id, seqPos, rcRank, blocks)
    requires |blocks| < |all| && all[|blocks|] == (i, j) && all[..|blocks| + 1] == blocks + [(i, j)]
    requires Occurring(id, seqPos, rcRank, i, j) && emitted == BlockOutput(id, pos, seqPos, rcRank, i, j)
    requires out == BlocksOutput(id, pos, seqPos, rcRank, blocks) && blocks == all[..|blocks|]
    ensures BlocksOccur(id, seqPos, rcRank, blocks + [(i, j)])
    ensures out + emitted == BlocksOutput(id, pos, seqPos, rcRank, blocks + [(i, j)])
  {
    PrintedSnoc(id, pos, seqPos, rcRank, all, |blocks|);
  }

  /** Every rank from `first` on with more than `overlap` characters left lies in one of
      the blocks, so its segment occurs, and the triple of each of its occurrences is printed. */
  lemma ScanPrintsAll(lcp: seq<int>, id: seq<nat>, pos: seq<nat>, len: seq<nat>, overlap: nat,
                      seqPos: seq<seq<nat>>, rcRank: seq<seq<nat>>, first: nat, p: nat, q: nat)
    requires ScanInput(lcp, id, pos, len) && BlocksOccur(id, seqPos, rcRank, Blocks(lcp, id, pos, len, overlap, first))
    requires first <= p < |id| && Remaining(id, pos, len, p) > overlap
    ensures Occurring(id, seqPos, rcRank, p, p + 1)
    ensures q < |rcRank[id[p]]| ==>
      TagOf(id, pos, seqPos, p, q) in BlocksOutput(id, pos, seqPos, rcRank, Blocks(lcp, id, pos, len, overlap, first))
  {
    var bs := Blocks(lcp, id, pos, len, overlap, first);
    BlocksCover(lcp, id, pos, len, overlap, first);
    var t :| 0 <= t < |bs| && bs[t].0 <= p < bs[t].1;
    assert Occurring(id, seqPos, rcRank, bs[t].0, bs[t].1);
    if q < |rcRank[id[p]]| {
      BlocksOutputHas(id, pos, seqPos, rcRank, bs, t, p, q);
    }
  }

  /** The same for every such rank and occurrence at once. */
  lemma ScanCovers(lcp: seq<int>, id: seq<nat>, pos: seq<nat>, len: seq<nat>, overlap: nat,
                   seqPos: seq<seq<nat>>, rcRank: seq<seq<nat>>, first: nat, out: seq<(nat, nat, nat)>)
    requires ScanInput(lcp, id, pos, len) && BlocksOccur(id, seqPos, rcRank, Blocks(lcp, id, pos, len, overlap, first))
    requires out == BlocksOutput(id, pos, seqPos, rcRank, Blocks(lcp, id, pos, len, overlap, first))
    ensures forall p: nat :: first <= p < |id| && Remaining(id, pos, len, p) > overlap ==>
      Occurring(id, seqPos, rcRank, p, p + 1) &&
      forall q: nat :: q < |rcRank[id[p]]| ==> TagOf(id, pos, seqPos, p, q) in out
  {
    forall p: nat | first <= p < |id| && Remaining(id, pos, len, p) > overlap
      ensures Occurring(id, seqPos, rcRank, p, p + 1)
      ensures forall q: nat :: q < |rcRank[id[p]]| ==> TagOf(id, pos, seqPos, p, q) in out
    {
      ScanPrintsAll(lcp, id, pos, len, overlap, seqPos, rcRank, first, p, 0);
      forall q: nat | q < |rcRank[id[p]]| ensures TagOf(id, pos, seqPos, p, q) in out {
        ScanPrintsAll(lcp, id, pos, len, overlap, seqPos, rcRank, first, p, q);
      }
    }
  }

  /** The rows a..b of an occurring range satisfy what `Block::new` and `next` read. */
  lemma BlockRows(id: seq<nat>, pos: seq<nat>, seqPos: seq<seq<nat>>, rcRank: seq<seq<nat>>, a: nat, b: nat)
    requires |id| == |pos| && Occurring(id, seqPos, rcRank, a, b)
    ensures forall k :: 0 <= k < b - a ==> id[a..b][k] < |rcRank| && |rcRank[id[a..b][k]]| > 0
    ensures Aligned(id[a..b], pos[a..b], seqPos, rcRank)
  {
    forall k | 0 <= k < b - a ensures id[a..b][k] == id[a + k] { }
  }

  /** One block: a `Block` over the rows i..j, drained. */
  method RunBlock(id: seq<nat>, pos: seq<nat>, seqPos: seq<seq<nat>>, rcRank: seq<seq<nat>>, i: nat, j: nat)
    returns (emitted: seq<(nat, nat, nat)>)
    requires |id| == |pos| && i < j && Occurring(id, seqPos, rcRank, i, j)
    ensures emitted == BlockOutput(id, pos, seqPos, rcRank, i, j)
  {
    var ids, ps := id[i..j], pos[i..j];
    BlockRows(id, pos, seqPos, rcRank, i, j);
    var b := new Block(ids, ps, seqPos, rcRank);
    emitted := b.Drain();
  }

  /** The scan loop from rank `first`: skip short ranks, find the block end, drain a
      `Block` over the block's rows and print what it yields, continue at the end. */
  method ScanFrom(lcp: seq<int>, id: seq<nat>, pos: seq<nat>, len: seq<nat>, overlap: nat,
                  seqPos: seq<seq<nat>>, rcRank: seq<seq<nat>>, first: nat)
    returns (out: seq<(nat, nat, nat)>)
    requires ScanInput(lcp, id, pos, len) && BlocksOccur(id, seqPos, rcRank, Blocks(lcp, id, pos, len, overlap, first))
    ensures out == BlocksOutput(id, pos, seqPos, rcRank, Blocks(lcp, id, pos, len, overlap, first))
  {
    var i: nat := first;
    out := [];
    ghost var all := Blocks(lcp, id, pos, len, overlap, first);
    ghost var blocks: seq<(nat, nat)> := [];
    assert all[..0] == blocks;
    while i < |id|
      invariant all == blocks + Blocks(lcp, id, pos, len, overlap, i)
      invariant |blocks| <= |all| && blocks == all[..|blocks|]
      invariant BlocksOccur(id, seqPos, rcRank, blocks) && out == BlocksOutput(id, pos, seqPos, rcRank, blocks)
      decreases |id| - i
    {
      var remaining := Remaining(id, pos, len, i);
      if remaining <= overlap {
        ScanSkip(lcp, id, pos, len, overlap, all, blocks, i);
        i := i + 1;
      } else {
        var j := FindEnd(lcp, remaining, i);
        ScanBlock(lcp, id, pos, len, overlap, all, blocks, i, j);
        assert Occurring(id, seqPos, rcRank, i, j);
        var emitted := RunBlock(id, pos, seqPos, rcRank, i, j);
        PrintedStep(id, pos, seqPos, rcRank, all, blocks, i, j, out, emitted);
        out, blocks := out + emitted, blocks + [(i, j)];
        i := j;
      }
    }
    assert blocks == all;
  }

  /** `print_tag_array` (src/bin/main2.rs) and the loop of `main` (src/bin/main3.rs,
      src/bin/main3/main.rs) as written: the scan starts at rank len.len() + 1. */
  method PrintTagArray(lcp: seq<int>, id: seq<nat>, pos: seq<nat>, len: seq<nat>, overlap: nat,
                       seqPos: seq<seq<nat>>, rcRank: seq<seq<nat>>)
    returns (out: seq<(nat, nat, nat)>)
    requires ScanInput(lcp, id, pos, len) && BlocksOccur(id, seqPos, rcRank, Blocks(lcp, id, pos, len, overlap, |len| + 1))
    ensures out == BlocksOutput(id, pos, seqPos, rcRank, Blocks(lcp, id, pos, len, overlap, |len| + 1))
  {
    out := ScanFrom(lcp, id, pos, len, overlap, seqPos, rcRank, |len| + 1);
  }

  /** The scan as intended: len.len() ranks (one per separator and the final 0) sort first,
      so the scan starts at rank len.len(), and the triple of every occurrence of every
      later rank with more than `overlap` characters left is printed. */
  method TagArray(lcp: seq<int>, id: seq<nat>, pos: seq<nat>, len: seq<nat>, overlap: nat,
                  seqPos: seq<seq<nat>>, rcRank: seq<seq<nat>>)
    returns (out: seq<(nat, nat, nat)>)
    requires ScanInput(lcp, id, pos, len) && BlocksOccur(id, seqPos, rcRank, Blocks(lcp, id, pos, len, overlap, |len|))
    ensures out == BlocksOutput(id, pos, seqPos, rcRank, Blocks(lcp, id, pos, len, overlap, |len|))
    ensures forall p: nat :: |len| <= p < |id| && Remaining(id, pos, len, p) > overlap ==>
      Occurring(id, seqPos, rcRank, p, p + 1) &&
      forall q: nat :: q < |rcRank[id[p]]| ==> TagOf(id, pos, seqPos, p, q) in out
  {
    out := ScanFrom(lcp, id, pos, len, overlap, seqPos, rcRank, |len|);
    ScanCovers(lcp, id, pos, len, overlap, seqPos, rcRank, |len|, out);
  }

  // ---------------------------------------------------------------------------
  // The arrays of the one-segment graph "AC" (bytes 65, 67), overlap 1: the
  // segment join is [67, 69, 1, 0], its suffix array [3, 2, 0, 1].

  function ExampleLcp(): seq<int> { [-1, 0, 0, 0, -1] }
  function ExampleId(): seq<nat> { [1, 0, 0, 0] }
  function ExamplePos(): seq<nat> { [0, 2, 0, 1] }
  function ExampleLen(): seq<nat> { [2, 1] }

  /** As written, the scan from len.len() + 1 = 3 finds no block, although rank 2 (the
      suffix "AC") has 2 > 1 characters of its segment left. */
  lemma SkippedFirstRank()
    ensures ScanInput(ExampleLcp(), ExampleId(), ExamplePos(), ExampleLen())
    ensures Remaining(ExampleId(), ExamplePos(), ExampleLen(), |ExampleLen()|) == 2
    ensures Blocks(ExampleLcp(), ExampleId(), ExamplePos(), ExampleLen(), 1, |ExampleLen()| + 1) == []
    ensures Blocks(ExampleLcp(), ExampleId(), ExamplePos(), ExampleLen(), 1, |ExampleLen()|) == [(2, 3)]
  {
    var lcp, id, pos, len := ExampleLcp(), ExampleId(), ExamplePos(), ExampleLen();
    assert Blocks(lcp, id, pos, len, 1, 4) == [];
    assert Remaining(id, pos, len, 3) == 1;
    assert BlockEnd(lcp, 2, 3) == 3;
  }

  // ---------------------------------------------------------------------------
  // `Block::get_block_at` (src/pf.rs)

  /** The first rank p >= start with more than `overlap` characters left, or |id|. */
  function SkipFrom(id: seq<nat>, pos: seq<nat>, len: seq<nat>, overlap: nat, start: nat): (p: nat)
    requires |pos| == |id| && forall i :: 0 <= i < |id| ==> id[i] < |len| && pos[i] <= len[id[i]]
    ensures start <= p || p == |id|
    ensures p <= |id| && (p < |id| ==> Remaining(id, pos, len, p) > overlap)
    ensures forall q :: start <= q < p ==> Remaining(id, pos, len, q) <= overlap
    decreases |id| - start
  {
    if start >= |id| then |id|
    else if Remaining(id, pos, len, start) > overlap then start
    else SkipFrom(id, pos, len, overlap, start + 1)
  }

  /** `get_block_at` as written: it returns None only when `start` is past the last rank;
      its skip loop then reads id[start] with no bound, so it stays inside the arrays only
      while some rank from `start` on has more than `overlap` characters left. */
  method GetBlockAtAsWritten(lcp: seq<int>, id: seq<nat>, pos: seq<nat>, len: seq<nat>, overlap: nat, start: nat)
    returns (r: Option<(nat, nat)>)
    requires ScanInput(lcp, id, pos, len)
    requires start < |id| ==> SkipFrom(id, pos, len, overlap, start) < |id|
    ensures r.None? <==> start >= |id|
    ensures r.Some? ==> var s := SkipFrom(id, pos, len, overlap, start);
      r.value == (s, BlockEnd(lcp, Remaining(id, pos, len, s), s + 1))
  {
    if start >= |id| {
      return None;
    }
    var s := start;
    var remaining := len[id[s]] - pos[s];
    while remaining <= overlap
      invariant start <= s < |id| && remaining == Remaining(id, pos, len, s)
      invariant SkipFrom(id, pos, len, overlap, start) == SkipFrom(id, pos, len, overlap, s)
      decreases |id| - s
    {
      s := s + 1;
      remaining := len[id[s]] - pos[s];
    }
    var e := FindEnd(lcp, remaining, s);
    r := Some((s, e));
  }

  /** After the block of the example (ranks 2..3) the iterator asks for the block at rank 3:
      3 is not past the last rank, yet no rank from 3 on has more than one character left,
      so the skip loop reads past the arrays. */
  lemma GetBlockAtOverrun()
    ensures 3 < |ExampleId()| && SkipFrom(ExampleId(), ExamplePos(), ExampleLen(), 1, 3) == |ExampleId()|
  {
  }

  /** `get_block_at` with its skip loop bounded: None once no rank from `start` on has more
      than `overlap` characters left; otherwise the first block from `start`, exactly the
      first block `Blocks` finds, and the blocks after it are the ones from its end. */
  method GetBlockAt(lcp: seq<int>, id: seq<nat>, pos: seq<nat>, len: seq<nat>, overlap: nat, start: nat)
    returns (r: Option<(nat, nat)>)
    requires ScanInput(lcp, id, pos, len)
    ensures r.None? <==> Blocks(lcp, id, pos, len, overlap, start) == []
    ensures r.Some? ==> (r.value.0 < r.value.1 <= |id| &&
      Blocks(lcp, id, pos, len, overlap, start) == [r.value] + Blocks(lcp, id, pos, len, overlap, r.value.1))
  {
    var s := start;
    while s < |id| && len[id[s]] - pos[s] <= overlap
      invariant start <= s
      invariant Blocks(lcp, id, pos, len, overlap, start) == Blocks(lcp, id, pos, len, overlap, s)
      decreases |id| - s
    {
      s := s + 1;
    }
    if s >= |id| {
      return None;
    }
    var remaining := len[id[s]] - pos[s];
    var e := FindEnd(lcp, remaining, s);
    r := Some((s, e));
  }

  /** src/pf.rs starts at rank 0 instead of len.len(): when the ranks below len.len()
      (the separators, with nothing left, and the final 0, with one character) are all
      skipped, both starts find the same blocks. */
  lemma StartAtZero(lcp: seq<int>, id: seq<nat>, pos: seq<nat>, len: seq<nat>, overlap: nat)
    requires ScanInput(lcp, id, pos, len)
    requires forall p :: 0 <= p < |len| && p < |id| ==> Remaining(id, pos, len, p) <= overlap
    ensures Blocks(lcp, id, pos, len, overlap, 0) == Blocks(lcp, id, pos, len, overlap, |len|)
  {
    BlocksSkip(lcp, id, pos, len, overlap, 0, |len|);
  }
}
