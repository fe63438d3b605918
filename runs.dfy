/** Runs of equal values in a column and their boundary samples: the run-boundary
    sampling of the tag array (`get_sampled_arrays` in src/bin/main.rs and
    src/main.rs), `rl_encode` and `doc_listing` in scripts/create_col.py. */
module Runs {

  /** Indices where a maximal run of equal values starts: 0 and every i whose value
      differs from the one before. */
  ghost function RunStarts<T>(c: seq<T>): (r: seq<nat>)
    ensures |c| > 0 ==> |r| > 0 && r[0] == 0
    ensures forall k :: 0 <= k < |r| ==> r[k] < |c|
    decreases |c|
  {
    var n := |c|;
    if n == 0 then []
    else if n == 1 then [0]
    else RunStarts(c[..n - 1]) + (if c[n - 1] != c[n - 2] then [n - 1] else [])
  }

  /** The run starts ascend strictly, and an index starts a run exactly when it is 0
      or its value differs from the one before. */
  lemma {:induction false} RunStartsSpec<T>(c: seq<T>)
    ensures forall k, l :: 0 <= k < l < |RunStarts(c)| ==> RunStarts(c)[k] < RunStarts(c)[l]
    ensures forall i :: 0 <= i < |c| ==> (i in RunStarts(c) <==> i == 0 || c[i] != c[i - 1])
    decreases |c|
  {
    var n := |c|;
    if n > 1 {
      var init := c[..n - 1];
      RunStartsSpec(init);
      var r0, r := RunStarts(init), RunStarts(c);
      var tail: seq<nat> := if c[n - 1] != c[n - 2] then [n - 1] else [];
      assert r == r0 + tail;
      forall k, l | 0 <= k < l < |r| ensures r[k] < r[l] {
        if l < |r0| {
          assert r[k] == r0[k] && r[l] == r0[l];
          assert r0[k] < r0[l];
        } else {
          assert r[l] == tail[0] == n - 1;
          assert r[k] == r0[k] < |init|;
        }
      }
      forall i | 0 <= i < n ensures (i in r <==> i == 0 || c[i] != c[i - 1]) {
        if i < n - 1 {
          assert init[i] == c[i] && (i > 0 ==> init[i - 1] == c[i - 1]);
          assert i in r <==> i in r0;
        } else {
          assert n - 1 !in r0;
        }
      }
    } else if n == 1 {
      assert RunStarts(c) == [0];
    }
  }

  /** One past the last index of every run. */
  ghost function RunEnds<T>(c: seq<T>): (e: seq<nat>)
    ensures |e| == |RunStarts(c)|
    ensures forall k :: 0 <= k < |e| ==> RunStarts(c)[k] < e[k] <= |c|
  {
    var s := RunStarts(c);
    RunStartsSpec(c);
    seq(|s|, k requires 0 <= k < |s| => if k + 1 < |s| then s[k + 1] else |c|)
  }

  /** The samples of the tag array: for every maximal run of equal tags, the (sa, tag)
      of its first entry followed by those of its last entry. Built by appending one
      entry at a time: an entry equal to the one before replaces the run's last sample,
      a different one opens a new run. */
  function Sample<S, T(==)>(sa: seq<S>, tag: seq<T>): (r: (seq<S>, seq<T>))
    requires |sa| == |tag| > 0
    ensures |r.0| == |r.1| >= 2
    ensures r.0[|r.0| - 1] == sa[|sa| - 1] && r.1[|r.1| - 1] == tag[|tag| - 1]
    ensures r.1[|r.1| - 2] == tag[|tag| - 1]
    decreases |tag|
  {
    var n := |tag|;
    if n == 1 then ([sa[0], sa[0]], [tag[0], tag[0]])
    else
      var prev := Sample(sa[..n - 1], tag[..n - 1]);
      if tag[n - 1] == tag[n - 2] then (prev.0[..|prev.0| - 1] + [sa[n - 1]], prev.1)
      else (prev.0 + [sa[n - 1], sa[n - 1]], prev.1 + [tag[n - 1], tag[n - 1]])
  }

  /** `t` holds two samples per run of `tag`, both carrying the run's tag. */
  ghost predicate TagSamples<T>(tag: seq<T>, t: seq<T>)
  {
    var starts := RunStarts(tag);
    |t| == 2 * |starts| &&
    forall k :: 0 <= k < |starts| ==> t[2 * k] == tag[starts[k]] && t[2 * k + 1] == tag[starts[k]]
  }

  /** `s` holds two samples per run of `tag`: the sa value at the run's first index,
      then the one at its last index. */
  ghost predicate SaSamples<S, T>(sa: seq<S>, tag: seq<T>, s: seq<S>)
  {
    Bounds(sa, RunStarts(tag), RunEnds(tag), s)
  }

  /** `s` holds, for every run given by its first index and one past its last, the sa
      values at both ends. */
  ghost predicate Bounds<S>(sa: seq<S>, starts: seq<nat>, ends: seq<nat>, s: seq<S>)
  {
    |ends| == |starts| && |s| == 2 * |starts| &&
    forall k :: 0 <= k < |starts| ==>
      (starts[k] < |sa| && 0 < ends[k] <= |sa| &&
       s[2 * k] == sa[starts[k]] && s[2 * k + 1] == sa[ends[k] - 1])
  }

  /** The samples are exactly the first and last entries of every maximal run of
      equal tags. */
  lemma {:induction false} SampleIsRunBoundaries<S, T>(sa: seq<S>, tag: seq<T>)
    requires |sa| == |tag| > 0
    ensures TagSamples(tag, Sample(sa, tag).1) && SaSamples(sa, tag, Sample(sa, tag).0)
    decreases |tag|
  {
    var n := |tag|;
    if n > 1 {
      var sa', tag' := sa[..n - 1], tag[..n - 1];
      var prev := Sample(sa', tag');
      SampleIsRunBoundaries(sa', tag');
      if tag[n - 1] == tag[n - 2] {
        TagSamplesSame(tag, prev.1);
        SaSamplesSame(sa, tag, prev.0);
      } else {
        TagSamplesNew(tag, prev.1);
        SaSamplesNew(sa, tag, prev.0);
      }
    } else {
      assert RunStarts(tag) == [0];
    }
  }

  /** Unfolding of `RunStarts` at the last entry. */
  lemma RunStartsSnoc<T>(tag: seq<T>)
    requires |tag| > 1
    ensures RunStarts(tag) == RunStarts(tag[..|tag| - 1]) +
      (if tag[|tag| - 1] != tag[|tag| - 2] then [|tag| - 1] else [])
  {
  }

  /** One more entry moves the end of the last run when it repeats the entry before,
      and adds a run ending after it otherwise. */
  lemma RunEndsSnoc<T>(tag: seq<T>)
    requires |tag| > 1
    ensures var n, e, e' := |tag|, RunEnds(tag), RunEnds(tag[..|tag| - 1]);
      |e'| > 0 &&
      (tag[n - 1] == tag[n - 2] ==> e == e'[..|e'| - 1] + [n]) &&
      (tag[n - 1] != tag[n - 2] ==> e == e' + [n])
  {
    var n := |tag|;
    RunStartsSnoc(tag);
    var s, s' := RunStarts(tag), RunStarts(tag[..n - 1]);
    var e, e' := RunEnds(tag), RunEnds(tag[..n - 1]);
    if tag[n - 1] == tag[n - 2] {
      assert s == s';
      assert e == e'[..|e'| - 1] + [n];
    } else {
      assert s == s' + [n - 1];
      assert e == e' + [n];
    }
  }

  /** An entry equal to the one before leaves the tag samples as they are. */
  lemma TagSamplesSame<T>(tag: seq<T>, t: seq<T>)
    requires |tag| > 1 && tag[|tag| - 1] == tag[|tag| - 2]
    requires TagSamples(tag[..|tag| - 1], t)
    ensures TagSamples(tag, t)
  {
    RunStartsSnoc(tag);
  }

  /** A different entry appends two samples of its tag. */
  lemma TagSamplesNew<T>(tag: seq<T>, t: seq<T>)
    requires |tag| > 1 && tag[|tag| - 1] != tag[|tag| - 2]
    requires TagSamples(tag[..|tag| - 1], t)
    ensures TagSamples(tag, t + [tag[|tag| - 1], tag[|tag| - 1]])
  {
    RunStartsSnoc(tag);
  }

  /** An entry equal to the one before replaces the last run's closing sample. */
  lemma SaSamplesSame<S, T>(sa: seq<S>, tag: seq<T>, s: seq<S>)
    requires |sa| == |tag| > 1 && tag[|tag| - 1] == tag[|tag| - 2]
    requires SaSamples(sa[..|sa| - 1], tag[..|tag| - 1], s)
    ensures |s| > 0 && SaSamples(sa, tag, s[..|s| - 1] + [sa[|sa| - 1]])
  {
    RunStartsSnoc(tag);
    RunEndsSnoc(tag);
    BoundsSame(sa, RunStarts(tag), RunEnds(tag[..|tag| - 1]), RunEnds(tag), s);
  }

  lemma BoundsSame<S>(sa: seq<S>, starts: seq<nat>, ends': seq<nat>, ends: seq<nat>, s: seq<S>)
    requires |sa| > 0 && Bounds(sa[..|sa| - 1], starts, ends', s) && |ends'| > 0
    requires ends == ends'[..|ends'| - 1] + [|sa|]
    ensures |s| > 0 && Bounds(sa, starts, ends, s[..|s| - 1] + [sa[|sa| - 1]])
  {
    var n, m := |sa|, |starts|;
    var sa', s2 := sa[..n - 1], s[..|s| - 1] + [sa[n - 1]];
    forall k | 0 <= k < m
      ensures starts[k] < n && 0 < ends[k] <= n && s2[2 * k] == sa[starts[k]] && s2[2 * k + 1] == sa[ends[k] - 1]
    {
      assert s2[2 * k] == s[2 * k] == sa'[starts[k]];
      if k < m - 1 {
        assert s2[2 * k + 1] == s[2 * k + 1] == sa'[ends'[k] - 1];
      }
    }
  }

  /** A different entry appends its sa value twice: it opens and closes a new run. */
  lemma SaSamplesNew<S, T>(sa: seq<S>, tag: seq<T>, s: seq<S>)
    requires |sa| == |tag| > 1 && tag[|tag| - 1] != tag[|tag| - 2]
    requires SaSamples(sa[..|sa| - 1], tag[..|tag| - 1], s)
    ensures SaSamples(sa, tag, s + [sa[|sa| - 1], sa[|sa| - 1]])
  {
    RunStartsSnoc(tag);
    RunEndsSnoc(tag);
    BoundsNew(sa, RunStarts(tag[..|tag| - 1]), RunStarts(tag), RunEnds(tag[..|tag| - 1]), RunEnds(tag), s);
  }

  lemma BoundsNew<S>(sa: seq<S>, starts': seq<nat>, starts: seq<nat>, ends': seq<nat>, ends: seq<nat>, s: seq<S>)
    requires |sa| > 0 && Bounds(sa[..|sa| - 1], starts', ends', s)
    requires starts == starts' + [|sa| - 1] && ends == ends' + [|sa|]
    ensures Bounds(sa, starts, ends, s + [sa[|sa| - 1], sa[|sa| - 1]])
  {
    var n, m := |sa|, |starts|;
    var sa', s2 := sa[..n - 1], s + [sa[n - 1], sa[n - 1]];
    forall k | 0 <= k < m
      ensures starts[k] < n && 0 < ends[k] <= n && s2[2 * k] == sa[starts[k]] && s2[2 * k + 1] == sa[ends[k] - 1]
    {
      if k < m - 1 {
        assert s2[2 * k] == s[2 * k] == sa'[starts[k]];
        assert s2[2 * k + 1] == s[2 * k + 1] == sa'[ends'[k] - 1];
      }
    }
  }

  /** The samples of a one-entry prefix. */
  lemma SampleFirst<S, T>(sa: seq<S>, tag: seq<T>)
    requires |sa| == |tag| > 0
    ensures Sample(sa[..1], tag[..1]) == ([sa[0]] + [sa[0]], [tag[0]] + [tag[0]])
  {
    assert [sa[0]] + [sa[0]] == [sa[0], sa[0]] && [tag[0]] + [tag[0]] == [tag[0], tag[0]];
  }

  /** Appending entry i to the samples of the first i entries, written as the loops keep
      them: everything but the open run's last sample, which is entry i - 1. */
  lemma SampleStep<S, T>(sa: seq<S>, tag: seq<T>, i: nat, ss: seq<S>, ts: seq<T>)
    requires |sa| == |tag| && 0 < i < |tag|
    requires (ss + [sa[i - 1]], ts + [tag[i - 1]]) == Sample(sa[..i], tag[..i])
    ensures tag[i] == tag[i - 1] ==>
      (ss + [sa[i]], ts + [tag[i]]) == Sample(sa[..i + 1], tag[..i + 1])
    ensures tag[i] != tag[i - 1] ==>
      (((ss + [sa[i - 1]]) + [sa[i]]) + [sa[i]], ((ts + [tag[i - 1]]) + [tag[i]]) + [tag[i]]) ==
      Sample(sa[..i + 1], tag[..i + 1])
  {
    assert sa[..i + 1][..i] == sa[..i] && tag[..i + 1][..i] == tag[..i];
    var prev := Sample(sa[..i], tag[..i]);
    assert prev.0[..|prev.0| - 1] == ss;
    assert ((ss + [sa[i - 1]]) + [sa[i]]) + [sa[i]] == prev.0 + [sa[i], sa[i]];
    assert ((ts + [tag[i - 1]]) + [tag[i]]) + [tag[i]] == prev.1 + [tag[i], tag[i]];
  }

  /** `get_sampled_arrays` of src/bin/main.rs after the tag array is built: the first
      entry, both sides of every change, and the last entry. An empty tag array makes
      `tag[0]` panic. */
  method SampleRuns<T(==)>(sa: seq<nat>, tag: seq<T>) returns (tagSample: seq<T>, saSample: seq<nat>)
    requires |sa| == |tag| > 0
    ensures (saSample, tagSample) == Sample(sa, tag)
  {
    tagSample, saSample := [tag[0]], [sa[0]];
    SampleFirst(sa, tag);
    for i := 1 to |tag|
      invariant (saSample + [sa[i - 1]], tagSample + [tag[i - 1]]) == Sample(sa[..i], tag[..i])
    {
      SampleStep(sa, tag, i, saSample, tagSample);
      if tag[i] != tag[i - 1] {
        tagSample := tagSample + [tag[i - 1]];
        saSample := saSample + [sa[i - 1]];
        tagSample := tagSample + [tag[i]];
        saSample := saSample + [sa[i]];
      }
    }
    assert sa[..|sa|] == sa && tag[..|tag|] == tag;
    tagSample := tagSample + [tag[|tag| - 1]];
    saSample := saSample + [sa[|tag| - 1]];
  }

  /** `rl_encode(C, R)` (scripts/create_col.py): the same sampling with C as the tags and
      R as the values; a change is detected against the last kept C, which is always
      C[i - 1]. */
  method RlEncode(c: seq<int>, r: seq<int>) returns (newC: seq<int>, newR: seq<int>)
    requires |c| == |r| > 0
    ensures (newR, newC) == Sample(r, c)
  {
    newC, newR := [c[0]], [r[0]];
    SampleFirst(r, c);
    for i := 1 to |c|
      invariant (newR + [r[i - 1]], newC + [c[i - 1]]) == Sample(r[..i], c[..i])
      invariant |newC| > 0 && newC[|newC| - 1] == c[i - 1]
    {
      SampleStep(r, c, i, newR, newC);
      if c[i] != newC[|newC| - 1] {
        newC := newC + [c[i - 1]];
        newR := newR + [r[i - 1]];
        newC := newC + [c[i]];
        newR := newR + [r[i]];
      }
    }
    assert r[..|r|] == r && c[..|c|] == c;
    newC := newC + [c[|c| - 1]];
    newR := newR + [r[|r| - 1]];
  }

  /** The values of a column with adjacent repeats collapsed: one per run. */
  ghost function Collapse<T>(c: seq<T>): (d: seq<T>)
  {
    var s := RunStarts(c);
    seq(|s|, k requires 0 <= k < |s| => c[s[k]])
  }

  /** Collapsing keeps the first value and leaves no two equal neighbours. */
  lemma CollapseFacts<T>(c: seq<T>)
    requires |c| > 0
    ensures var d := Collapse(c);
      |d| > 0 && d[0] == c[0] &&
      forall k :: 0 < k < |d| ==> d[k] != d[k - 1]
  {
    var d, s := Collapse(c), RunStarts(c);
    forall k | 0 < k < |d| ensures d[k] != d[k - 1] {
      RunsConstant(c, k - 1);
    }
  }

  /** Every value inside run r equals its first value, so consecutive runs hold
      different values. */
  lemma RunsConstant<T>(c: seq<T>, r: nat)
    requires r + 1 < |RunStarts(c)|
    ensures c[RunStarts(c)[r + 1]] != c[RunStarts(c)[r]]
  {
    var s := RunStarts(c);
    RunStartsSpec(c);
    var a, b := s[r], s[r + 1];
    assert b != 0 && b in s;
    var i := a;
    while i < b - 1
      invariant a <= i < b && c[i] == c[a]
      decreases b - i
    {
      // i + 1 lies strictly between two consecutive run starts, so it starts no run.
      assert i + 1 !in s;
      i := i + 1;
    }
  }

  /** `doc_listing(C, i, j)` (scripts/create_col.py): C[i] followed by every C[k],
      i < k < j, that differs from C[k - 1]. C[i] must exist; an empty or inverted
      range gives [C[i]]. */
  method DocListing(c: seq<int>, i: nat, j: nat) returns (res: seq<int>)
    requires i < |c| && j <= |c|
    ensures res == if i < j then Collapse(c[i..j]) else [c[i]]
  {
    res := [c[i]];
    var n := if i < j then j else i + 1;
    assert c[i..i + 1] == [c[i]];
    for k := i + 1 to n
      invariant res == Collapse(c[i..k])
    {
      DocStep(c, i, k);
      if c[k - 1] != c[k] {
        res := res + [c[k]];
      }
    }
  }

  /** Collapsing C[i..k + 1] adds C[k] to the collapse of C[i..k] when it differs from C[k - 1]. */
  lemma DocStep(c: seq<int>, i: nat, k: nat)
    requires i < k < |c|
    ensures Collapse(c[i..k + 1]) == Collapse(c[i..k]) + (if c[k - 1] != c[k] then [c[k]] else [])
  {
    var d := c[i..k + 1];
    assert d[..|d| - 1] == c[i..k];
    CollapseSnoc(d);
  }

  /** Collapsing one more value appends it exactly when it differs from the last. */
  lemma CollapseSnoc<T>(c: seq<T>)
    requires |c| > 1
    ensures Collapse(c) == Collapse(c[..|c| - 1]) + (if c[|c| - 1] != c[|c| - 2] then [c[|c| - 1]] else [])
  {
    var init := c[..|c| - 1];
    var s, s' := RunStarts(c), RunStarts(init);
    assert forall k :: 0 <= k < |s'| ==> s[k] == s'[k];
  }
}
