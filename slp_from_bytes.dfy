/** `Grammar::from_bytes`, the test helper that builds an SLP for a byte
    string by pairing adjacent symbols level by level: every new pair gets the
    next free identifier (256, 257, ...), a pair seen before reuses its
    identifier, and an odd symbol left over at the end of a level is carried
    up unchanged. The rules are then listed in identifier order. */
module SlpFromBytes {
  import opened Text
  import opened Wrappers
  import opened Slp

  predicate AllEarlier(v: seq<nat>, m: nat)
  {
    forall j :: 0 <= j < |v| ==> Earlier(v[j], m)
  }

  /** The terminals a sequence of symbols derives, left to right. */
  function Spell(left: seq<nat>, right: seq<nat>, v: seq<nat>): (t: seq<nat>)
    requires Ordered(left, right) && AllEarlier(v, |left|)
    ensures |t| >= |v|
    decreases |v|
  {
    if |v| == 0 then [] else Expand(left, right, v[0]) + Spell(left, right, v[1..])
  }

  lemma {:induction false} SpellAppend(left: seq<nat>, right: seq<nat>, v: seq<nat>, w: seq<nat>)
    requires Ordered(left, right) && AllEarlier(v, |left|) && AllEarlier(w, |left|)
    ensures AllEarlier(v + w, |left|)
    ensures Spell(left, right, v + w) == Spell(left, right, v) + Spell(left, right, w)
    decreases |v|
  {
    if |v| > 0 {
      assert (v + w)[1..] == v[1..] + w;
      SpellAppend(left, right, v[1..], w);
    } else {
      assert v + w == w;
    }
  }

  /** Adding a rule does not change what earlier symbols spell. */
  lemma {:induction false} SpellPush(left: seq<nat>, right: seq<nat>, a: nat, b: nat, v: seq<nat>)
    requires Ordered(left, right) && Earlier(a, |left|) && Earlier(b, |left|) && AllEarlier(v, |left|)
    ensures Ordered(left + [a], right + [b])
    ensures Spell(left + [a], right + [b], v) == Spell(left, right, v)
    decreases |v|
  {
    ExpandPush(left, right, a, b);
    if |v| > 0 {
      SpellPush(left, right, a, b, v[1..]);
    }
  }

  /** Rule k as a pair. */
  function RuleAt(left: seq<nat>, right: seq<nat>, k: nat): (nat, nat)
    requires k < |left| && k < |right|
  {
    (left[k], right[k])
  }

  /** The identifier map agrees with the rule table: rule k is the pair with
      identifier NTERM + k, and every key is one of the rules. */
  predicate MapOk(ruleId: map<(nat, nat), nat>, left: seq<nat>, right: seq<nat>)
  {
    |left| == |right| && |ruleId| == |left| &&
    (forall p :: p in ruleId ==> NTERM <= ruleId[p] < NTERM + |left| &&
                                 left[ruleId[p] - NTERM] == p.0 && right[ruleId[p] - NTERM] == p.1) &&
    (forall k :: 0 <= k < |left| ==> RuleAt(left, right, k) in ruleId && ruleId[RuleAt(left, right, k)] == NTERM + k)
  }

  /** No two rules have the same pair. */
  predicate Distinct(left: seq<nat>, right: seq<nat>)
    requires |left| == |right|
  {
    forall j, k :: 0 <= j < k < |left| ==> RuleAt(left, right, j) != RuleAt(left, right, k)
  }

  lemma MapOkDistinct(ruleId: map<(nat, nat), nat>, left: seq<nat>, right: seq<nat>)
    requires MapOk(ruleId, left, right)
    ensures Distinct(left, right)
  {
  }

  /** Every rule of the table derives fewer than `bound` terminals. */
  predicate SizesBelow(left: seq<nat>, right: seq<nat>, bound: nat)
    requires Ordered(left, right)
  {
    forall k :: 0 <= k < |left| ==> RuleSize(left, right, k) < bound
  }

  /** Every rule of the table derives at most `bound` terminals. */
  predicate SizesAtMost(left: seq<nat>, right: seq<nat>, bound: nat)
    requires Ordered(left, right)
  {
    forall k :: 0 <= k < |left| ==> RuleSize(left, right, k) <= bound
  }

  /** The state of a level after pairing v1[0..i): the new symbols `v2`
      spell that prefix, `ruleId` agrees with the rule table, and the table
      has grown by at most one rule per pair since it held `base` rules. */
  predicate Level(s: seq<nat>, v1: seq<nat>, i: nat, ruleId: map<(nat, nat), nat>,
                  L: seq<nat>, R: seq<nat>, v2: seq<nat>, id: nat, base: nat)
  {
    i <= |v1| && i == 2 * |v2| && |L| + |v2| <= base + i &&
    Ordered(L, R) && MapOk(ruleId, L, R) && id == NTERM + |L| &&
    AllEarlier(v1, |L|) && AllEarlier(v2, |L|) &&
    Spell(L, R, v2) == Spell(L, R, v1[..i]) && Spell(L, R, v1) == s &&
    SizesAtMost(L, R, |s|) &&
    (|v1| >= 3 || i == 0 ==> SizesBelow(L, R, |s|)) &&
    (|v1| == 2 && i == 2 ==> |L| > 0 && v2 == [id - 1])
  }

  /** Pair v1[i], v1[i+1]: reuse the pair's identifier or give it the next one. */
  method PairStep(ghost s: seq<nat>, v1: seq<nat>, i: nat, ruleId: map<(nat, nat), nat>,
                  ghost L: seq<nat>, ghost R: seq<nat>, v2: seq<nat>, id: nat, ghost base: nat)
    returns (ruleId': map<(nat, nat), nat>, ghost L': seq<nat>, ghost R': seq<nat>, v2': seq<nat>, id': nat)
    requires i + 1 < |v1| && Level(s, v1, i, ruleId, L, R, v2, id, base)
    ensures Level(s, v1, i + 2, ruleId', L', R', v2', id', base)
  {
    var p := (v1[i], v1[i + 1]);
    if p in ruleId {
      ReuseStep(s, v1, i, ruleId, L, R, v2, id, base);
      ruleId', L', R', v2', id' := ruleId, L, R, v2 + [ruleId[p]], id;
    } else {
      NewStep(s, v1, i, ruleId, L, R, v2, id, base);
      L', R' := L + [v1[i]], R + [v1[i + 1]];
      ruleId', v2', id' := ruleId[p := id], v2 + [id], id + 1;
    }
  }

  /** The level after reusing the identifier of a pair seen before. */
  lemma ReuseStep(s: seq<nat>, v1: seq<nat>, i: nat, ruleId: map<(nat, nat), nat>,
                  L: seq<nat>, R: seq<nat>, v2: seq<nat>, id: nat, base: nat)
    requires i + 1 < |v1| && Level(s, v1, i, ruleId, L, R, v2, id, base) && (v1[i], v1[i + 1]) in ruleId
    ensures Level(s, v1, i + 2, ruleId, L, R, v2 + [ruleId[(v1[i], v1[i + 1])]], id, base)
  {
    LastPairIsNew(L, R, ruleId, v1);
    ReusePair(L, R, ruleId[(v1[i], v1[i + 1])] - NTERM, v1, i, v2);
  }

  /** The level after giving a new pair the next identifier. */
  lemma NewStep(s: seq<nat>, v1: seq<nat>, i: nat, ruleId: map<(nat, nat), nat>,
                L: seq<nat>, R: seq<nat>, v2: seq<nat>, id: nat, base: nat)
    requires i + 1 < |v1| && Level(s, v1, i, ruleId, L, R, v2, id, base) && (v1[i], v1[i + 1]) !in ruleId
    ensures Level(s, v1, i + 2, ruleId[(v1[i], v1[i + 1]) := id], L + [v1[i]], R + [v1[i + 1]], v2 + [id], id + 1, base)
  {
    NewPair(s, L, R, ruleId, v1, i, v2, id);
  }

  /** A pair seen before: appending its identifier spells the two symbols. */
  lemma ReusePair(L: seq<nat>, R: seq<nat>, k: nat, v1: seq<nat>, i: nat, v2: seq<nat>)
    requires i + 1 < |v1| && Ordered(L, R) && AllEarlier(v1, |L|)
    requires AllEarlier(v2, |L|) && Spell(L, R, v2) == Spell(L, R, v1[..i])
    requires k < |L| && L[k] == v1[i] && R[k] == v1[i + 1]
    ensures AllEarlier(v2 + [NTERM + k], |L|)
    ensures Spell(L, R, v2 + [NTERM + k]) == Spell(L, R, v1[..i + 2])
  {
    var x := NTERM + k;
    var pair := Expand(L, R, v1[i]) + Expand(L, R, v1[i + 1]);
    assert Expand(L, R, x) == pair;
    SpellOne(L, R, x);
    SpellAppend(L, R, v2, [x]);
    SpellPair(L, R, v1, i);
    assert Spell(L, R, v2 + [x]) == Spell(L, R, v1[..i]) + pair;
  }

  /** When only two symbols are left, their pair derives all of `v1`'s terminals,
      so it cannot be an earlier rule if every earlier rule derives fewer. */
  lemma LastPairIsNew(L: seq<nat>, R: seq<nat>, ruleId: map<(nat, nat), nat>, v1: seq<nat>)
    requires |v1| >= 2 && Ordered(L, R) && AllEarlier(v1, |L|) && MapOk(ruleId, L, R)
    ensures |v1| == 2 && SizesBelow(L, R, |Spell(L, R, v1)|) ==> (v1[0], v1[1]) !in ruleId
  {
    if |v1| == 2 && (v1[0], v1[1]) in ruleId {
      PairSpellsAll(L, R, ruleId[(v1[0], v1[1])] - NTERM, v1);
    }
  }

  /** A rule whose pair is the only two symbols left spells all of them. */
  lemma PairSpellsAll(L: seq<nat>, R: seq<nat>, k: nat, v1: seq<nat>)
    requires |v1| == 2 && Ordered(L, R) && AllEarlier(v1, |L|)
    requires k < |L| && L[k] == v1[0] && R[k] == v1[1]
    ensures RuleSize(L, R, k) == |Spell(L, R, v1)|
  {
    assert Expand(L, R, NTERM + k) == Expand(L, R, v1[0]) + Expand(L, R, v1[1]);
    assert v1[1..][1..] == [];
    assert Spell(L, R, v1[1..]) == Expand(L, R, v1[1]);
  }

  lemma SpellOne(L: seq<nat>, R: seq<nat>, x: nat)
    requires Ordered(L, R) && Earlier(x, |L|)
    ensures AllEarlier([x], |L|) && Spell(L, R, [x]) == Expand(L, R, x)
  {
    assert [x][1..] == [];
  }

  /** Spelling the first i + 2 symbols adds the pair's two expansions. */
  lemma SpellPair(L: seq<nat>, R: seq<nat>, v: seq<nat>, i: nat)
    requires i + 1 < |v| && Ordered(L, R) && AllEarlier(v, |L|)
    ensures Spell(L, R, v[..i + 2]) == Spell(L, R, v[..i]) + (Expand(L, R, v[i]) + Expand(L, R, v[i + 1]))
  {
    SpellAppend(L, R, v[..i], [v[i], v[i + 1]]);
    assert v[..i] + [v[i], v[i + 1]] == v[..i + 2];
    assert [v[i], v[i + 1]][1..] == [v[i + 1]];
    assert [v[i + 1]][1..] == [];
    assert Spell(L, R, [v[i + 1]]) == Expand(L, R, v[i + 1]);
    assert Spell(L, R, [v[i], v[i + 1]]) == Expand(L, R, v[i]) + Spell(L, R, [v[i + 1]]);
  }

  /** A new pair: pushing it as rule |L| keeps every fact the level relies on. */
  lemma NewPair(s: seq<nat>, L: seq<nat>, R: seq<nat>, ruleId: map<(nat, nat), nat>, v1: seq<nat>, i: nat, v2: seq<nat>, id: nat)
    requires i + 1 < |v1| && Ordered(L, R) && AllEarlier(v1, |L|)
    requires MapOk(ruleId, L, R) && id == NTERM + |L|
    requires AllEarlier(v2, |L|)
    requires Spell(L, R, v2) == Spell(L, R, v1[..i])
    requires SizesAtMost(L, R, |s|)
    requires |Spell(L, R, v1)| == |s|
    requires (v1[i], v1[i + 1]) !in ruleId
    ensures Ordered(L + [v1[i]], R + [v1[i + 1]])
    ensures MapOk(ruleId[(v1[i], v1[i + 1]) := id], L + [v1[i]], R + [v1[i + 1]])
    ensures AllEarlier(v1, |L| + 1) && AllEarlier(v2 + [id], |L| + 1)
    ensures Spell(L + [v1[i]], R + [v1[i + 1]], v2 + [id]) == Spell(L + [v1[i]], R + [v1[i + 1]], v1[..i + 2])
    ensures Spell(L + [v1[i]], R + [v1[i + 1]], v1) == Spell(L, R, v1)
    ensures SizesAtMost(L + [v1[i]], R + [v1[i + 1]], |s|)
    ensures SizesBelow(L, R, |s|) && |v1| >= 3 ==> SizesBelow(L + [v1[i]], R + [v1[i + 1]], |s|)
  {
    NewPairSpell(L, R, v1, i, v2);
    PairCost(L, R, v1, i);
    PushSizes(L, R, v1[i], v1[i + 1], |s|);
    NewPairMap(ruleId, L, R, v1[i], v1[i + 1]);
  }

  /** Spelling with the new rule appended: earlier spellings are unchanged and
      the new identifier spells the pair. */
  lemma NewPairSpell(L: seq<nat>, R: seq<nat>, v1: seq<nat>, i: nat, v2: seq<nat>)
    requires i + 1 < |v1| && Ordered(L, R) && AllEarlier(v1, |L|) && AllEarlier(v2, |L|)
    requires Spell(L, R, v2) == Spell(L, R, v1[..i])
    ensures Ordered(L + [v1[i]], R + [v1[i + 1]])
    ensures AllEarlier(v1, |L| + 1) && AllEarlier(v2 + [NTERM + |L|], |L| + 1)
    ensures Spell(L + [v1[i]], R + [v1[i + 1]], v2 + [NTERM + |L|]) == Spell(L + [v1[i]], R + [v1[i + 1]], v1[..i + 2])
    ensures Spell(L + [v1[i]], R + [v1[i + 1]], v1) == Spell(L, R, v1)
  {
    var L', R', id := L + [v1[i]], R + [v1[i + 1]], NTERM + |L|;
    ExpandPush(L, R, v1[i], v1[i + 1]);
    SpellPush(L, R, v1[i], v1[i + 1], v1);
    SpellPush(L, R, v1[i], v1[i + 1], v1[..i + 2]);
    SpellPush(L, R, v1[i], v1[i + 1], v2);
    SpellAppend(L', R', v2, [id]);
    assert [id][1..] == [];
    assert Spell(L', R', [id]) == Expand(L', R', id);
    SpellPair(L, R, v1, i);
  }

  /** Size bounds survive pushing a rule whose operands fit the bound together. */
  lemma PushSizes(L: seq<nat>, R: seq<nat>, a: nat, b: nat, n: nat)
    requires Ordered(L, R) && Earlier(a, |L|) && Earlier(b, |L|)
    ensures Ordered(L + [a], R + [b])
    ensures SizesAtMost(L, R, n) && |Expand(L, R, a)| + |Expand(L, R, b)| <= n ==> SizesAtMost(L + [a], R + [b], n)
    ensures SizesBelow(L, R, n) && |Expand(L, R, a)| + |Expand(L, R, b)| < n ==> SizesBelow(L + [a], R + [b], n)
  {
    var L', R' := L + [a], R + [b];
    ExpandPush(L, R, a, b);
    forall k | 0 <= k < |L'|
      ensures RuleSize(L', R', k) == if k < |L| then RuleSize(L, R, k) else |Expand(L, R, a)| + |Expand(L, R, b)|
    {
      if k < |L| {
        assert Expand(L', R', NTERM + k) == Expand(L, R, NTERM + k);
      }
    }
  }

  lemma NewPairMap(ruleId: map<(nat, nat), nat>, L: seq<nat>, R: seq<nat>, a: nat, b: nat)
    requires MapOk(ruleId, L, R) && (a, b) !in ruleId
    ensures MapOk(ruleId[(a, b) := NTERM + |L|], L + [a], R + [b])
  {
    var m, L', R' := ruleId[(a, b) := NTERM + |L|], L + [a], R + [b];
    forall p | p in m ensures NTERM <= m[p] < NTERM + |L'| && L'[m[p] - NTERM] == p.0 && R'[m[p] - NTERM] == p.1 {
      if p != (a, b) {
        assert L'[ruleId[p] - NTERM] == L[ruleId[p] - NTERM];
        assert R'[ruleId[p] - NTERM] == R[ruleId[p] - NTERM];
      }
    }
    forall k | 0 <= k < |L'| ensures RuleAt(L', R', k) in m && m[RuleAt(L', R', k)] == NTERM + k {
      if k < |L| {
        assert RuleAt(L', R', k) == RuleAt(L, R, k);
      }
    }
  }

  /** The two symbols of a pair spell at most all of `v`'s terminals but one
      per other symbol. */
  lemma PairCost(left: seq<nat>, right: seq<nat>, v: seq<nat>, i: nat)
    requires Ordered(left, right) && AllEarlier(v, |left|) && i + 1 < |v|
    ensures |Expand(left, right, v[i])| + |Expand(left, right, v[i + 1])| + (|v| - 2) <= |Spell(left, right, v)|
  {
    assert v == v[..i + 2] + v[i + 2..];
    SpellPair(left, right, v, i);
    SpellAppend(left, right, v[..i + 2], v[i + 2..]);
  }

  /** One level: pair up v1[0..n) with n the even part of |v1|, then carry an odd last symbol. */
  method PairLevel(ghost s: seq<nat>, v1: seq<nat>, ruleId: map<(nat, nat), nat>, ghost left: seq<nat>, ghost right: seq<nat>, id: nat)
    returns (v2: seq<nat>, ruleId': map<(nat, nat), nat>, ghost left': seq<nat>, ghost right': seq<nat>, id': nat)
    requires |v1| > 1 && Levels(s, v1, ruleId, left, right, id)
    ensures Levels(s, v2, ruleId', left', right', id') && |v2| < |v1|
  {
    var half := |v1| / 2;
    var n := 2 * half;
    StartLevel(s, v1, ruleId, left, right, id);
    v2, ruleId', left', right', id' := PairPrefix(s, v1, half, ruleId, left, right, id);
    ghost var paired := v2;
    if |v1| > n {
      v2 := v2 + [v1[|v1| - 1]];
    }
    EndLevel(s, v1, half, ruleId', left', right', paired, id', |left|);
  }

  /** The state between levels: `v1` spells the input with the rules built
      so far, every rule spells at most the whole input (and less while two
      or more symbols are left), and once one symbol is left it is the last
      rule. */
  predicate Levels(s: seq<nat>, v1: seq<nat>, ruleId: map<(nat, nat), nat>, L: seq<nat>, R: seq<nat>, id: nat)
  {
    Ordered(L, R) && MapOk(ruleId, L, R) && id == NTERM + |L| &&
    AllEarlier(v1, |L|) && Spell(L, R, v1) == s &&
    (|s| > 0 ==> |v1| > 0) && |L| + |v1| <= |s| &&
    SizesAtMost(L, R, |s|) && (|v1| > 1 ==> SizesBelow(L, R, |s|)) &&
    (|v1| == 1 && |s| > 1 ==> |L| > 0 && v1[0] == NTERM + |L| - 1) &&
    (|s| <= 1 ==> v1 == s && L == [])
  }

  /** A level starts with nothing paired. */
  lemma StartLevel(s: seq<nat>, v1: seq<nat>, ruleId: map<(nat, nat), nat>, L: seq<nat>, R: seq<nat>, id: nat)
    requires |v1| > 1 && Levels(s, v1, ruleId, L, R, id)
    ensures Level(s, v1, 0, ruleId, L, R, [], id, |L|)
  {
    assert v1[..0] == [];
  }

  /** After the pairs, carrying an odd last symbol gives the next level. */
  lemma EndLevel(s: seq<nat>, v1: seq<nat>, half: nat, ruleId: map<(nat, nat), nat>,
                 L: seq<nat>, R: seq<nat>, v2: seq<nat>, id: nat, base: nat)
    requires |v1| > 1 && 2 * half <= |v1| <= 2 * half + 1 && base + |v1| <= |s|
    requires Level(s, v1, 2 * half, ruleId, L, R, v2, id, base)
    ensures Levels(s, if |v1| > 2 * half then v2 + [v1[|v1| - 1]] else v2, ruleId, L, R, id)
    ensures |if |v1| > 2 * half then v2 + [v1[|v1| - 1]] else v2| < |v1|
  {
    if |v1| > 2 * half {
      CarryLast(L, R, v1, v2);
    } else {
      assert v1[..2 * half] == v1;
    }
  }

  /** The pairing loop of one level, over the even part v1[0..2 * half). */
  method PairPrefix(ghost s: seq<nat>, v1: seq<nat>, half: nat, ruleId: map<(nat, nat), nat>, ghost left: seq<nat>, ghost right: seq<nat>, id: nat)
    returns (v2: seq<nat>, ruleId': map<(nat, nat), nat>, ghost left': seq<nat>, ghost right': seq<nat>, id': nat)
    requires 2 * half <= |v1| && Level(s, v1, 0, ruleId, left, right, [], id, |left|)
    ensures Level(s, v1, 2 * half, ruleId', left', right', v2, id', |left|)
  {
    ruleId', left', right', v2, id' := ruleId, left, right, [], id;
    var i := 0;
    while i < 2 * half
      invariant i <= 2 * half && Level(s, v1, i, ruleId', left', right', v2, id', |left|)
    {
      ruleId', left', right', v2, id' := PairStep(s, v1, i, ruleId', left', right', v2, id', |left|);
      i := i + 2;
    }
  }

  /** An odd symbol at the end of a level is carried up unchanged. */
  lemma CarryLast(L: seq<nat>, R: seq<nat>, v1: seq<nat>, v2: seq<nat>)
    requires Ordered(L, R) && |v1| > 0 && AllEarlier(v1, |L|) && AllEarlier(v2, |L|)
    requires Spell(L, R, v2) == Spell(L, R, v1[..|v1| - 1])
    ensures AllEarlier(v2 + [v1[|v1| - 1]], |L|)
    ensures Spell(L, R, v2 + [v1[|v1| - 1]]) == Spell(L, R, v1)
  {
    var x := v1[|v1| - 1];
    assert v1[|v1| - 1..] == [x];
    assert v1[..|v1| - 1] + v1[|v1| - 1..] == v1;
    SpellAppend(L, R, v1[..|v1| - 1], [x]);
    SpellAppend(L, R, v2, [x]);
  }

  /** A `Vec<usize>` holding the input occupies eight bytes per symbol, and
      Rust caps an allocation at `isize::MAX` bytes. */
  const ISIZE_MAX: nat := 0x7FFF_FFFF_FFFF_FFFF

  /** `from_bytes`: build the rule table level by level, list the rules in
      identifier order and compute their sizes as `from_file` does. The
      grammar spells the input; a string of fewer than two bytes has no rule,
      and the root index underflows. */
  method FromBytes(s: seq<nat>) returns (r: Option<Grammar>)
    requires forall i :: 0 <= i < |s| ==> s[i] < NTERM
    requires 8 * |s| <= ISIZE_MAX
    ensures r.Some? <==> |s| >= 2
    ensures r.Some? ==> Valid(r.value)
    ensures r.Some? ==> Yield(r.value) == s
    ensures r.Some? ==> Distinct(r.value.left, r.value.right)
  {
    var ruleId: map<(nat, nat), nat> := map[];
    var id := NTERM;
    ghost var left: seq<nat> := [];
    ghost var right: seq<nat> := [];
    var v1 := s;
    assert Spell(left, right, v1) == s by { SpellTerminals(s); }
    while |v1| > 1
      invariant Levels(s, v1, ruleId, left, right, id)
      decreases |v1|
    {
      var v2;
      v2, ruleId, left, right, id := PairLevel(s, v1, ruleId, left, right, id);
      v1 := v2;
    }
    assert |s| >= 2 ==> |left| > 0;
    if |ruleId| == 0 {
      return None;
    }
    var lefts, rights := ById(ruleId, left, right);
    Finish(s, left, right, v1);
    r := BuildTable(lefts, rights);
    MapOkDistinct(ruleId, left, right);
    ghost var g := r.value;
    assert g.left == left && g.right == right && g.root == |left| - 1;
    assert Yield(g) == Expand(left, right, NTERM + |left| - 1);
  }

  /** The final table: every symbol fits a `usize`, every size is at most the
      input's length, and the last rule spells the input. */
  lemma Finish(s: seq<nat>, left: seq<nat>, right: seq<nat>, v1: seq<nat>)
    requires 8 * |s| <= ISIZE_MAX && Ordered(left, right) && 0 < |left|
    requires |left| + |v1| <= |s| && |v1| == 1 && v1[0] == NTERM + |left| - 1
    requires AllEarlier(v1, |left|) && Spell(left, right, v1) == s
    requires SizesAtMost(left, right, |s|)
    ensures Words(left, right)
    ensures forall k :: 0 <= k < |left| ==> RuleSize(left, right, k) <= USIZE_MAX
    ensures Expand(left, right, NTERM + |left| - 1) == s
  {
    forall j | 0 <= j < |left| ensures left[j] <= USIZE_MAX && right[j] <= USIZE_MAX {
      assert Earlier(left[j], j) && Earlier(right[j], j);
    }
    assert v1[1..] == [];
  }

  /** The map's entries listed by identifier: the identifiers are
      NTERM .. NTERM + |left| - 1, so the k-th is rule k. */
  method ById(ruleId: map<(nat, nat), nat>, ghost left: seq<nat>, ghost right: seq<nat>)
    returns (lefts: seq<nat>, rights: seq<nat>)
    requires MapOk(ruleId, left, right)
    ensures lefts == left && rights == right
  {
    lefts, rights := [], [];
    var k := 0;
    while k < |ruleId|
      invariant 0 <= k <= |left| && lefts == left[..k] && rights == right[..k]
    {
      assert RuleAt(left, right, k) in ruleId;
      var p :| p in ruleId && ruleId[p] == NTERM + k;
      lefts, rights := lefts + [p.0], rights + [p.1];
      assert left[..k + 1] == left[..k] + [left[k]];
      assert right[..k + 1] == right[..k] + [right[k]];
      k := k + 1;
    }
    assert left[..k] == left && right[..k] == right;
  }

  lemma SpellTerminals(s: seq<nat>)
    requires forall i :: 0 <= i < |s| ==> s[i] < NTERM
    ensures AllEarlier(s, 0) && Spell([], [], s) == s
  {
  }

  /** The loop `from_bytes` and `from_file` share: push each rule and its
      size, computed from the sizes already pushed. */
  method BuildTable(left: seq<nat>, right: seq<nat>) returns (r: Option<Grammar>)
    requires |left| == |right| && Words(left, right)
    ensures r == Build(left, right)
  {
    var sizes: seq<nat> := [];
    for i := 0 to |left|
      invariant Ordered(left[..i], right[..i]) && SizesOk(left[..i], right[..i], sizes)
    {
      if !Earlier(left[i], i) || !Earlier(right[i], i) {
        return None;
      }
      var leftSize := OperandSize(sizes, left[i]);
      var rightSize := OperandSize(sizes, right[i]);
      PushRow(left, right, sizes, i);
      if leftSize + rightSize > USIZE_MAX {
        BuildOverflows(left, right, i);
        return None;
      }
      sizes := sizes + [leftSize + rightSize];
    }
    assert left[..|left|] == left && right[..|right|] == right;
    if |left| == 0 {
      return None;
    }
    var g := Grammar(|left| - 1, left, right, sizes);
    BuildValid(g);
    return Some(g);
  }

  /** Row i of the table extends the prefix before it; its size is the sum
      of its operands' sizes. */
  lemma PushRow(left: seq<nat>, right: seq<nat>, sizes: seq<nat>, i: nat)
    requires |left| == |right| && i < |left| && Earlier(left[i], i) && Earlier(right[i], i)
    requires Ordered(left[..i], right[..i]) && SizesOk(left[..i], right[..i], sizes)
    ensures Ordered(left[..i + 1], right[..i + 1])
    ensures RuleSize(left[..i + 1], right[..i + 1], i) == OperandSize(sizes, left[i]) + OperandSize(sizes, right[i])
    ensures OperandSize(sizes, left[i]) + OperandSize(sizes, right[i]) <= USIZE_MAX ==>
              SizesOk(left[..i + 1], right[..i + 1], sizes + [OperandSize(sizes, left[i]) + OperandSize(sizes, right[i])])
  {
    PushRule(left[..i], right[..i], sizes, left[i], right[i]);
    assert left[..i + 1] == left[..i] + [left[i]] && right[..i + 1] == right[..i] + [right[i]];
  }

  /** A rule whose size overflows makes the whole table fail. */
  lemma BuildOverflows(left: seq<nat>, right: seq<nat>, i: nat)
    requires |left| == |right| && Words(left, right) && i < |left|
    requires Ordered(left[..i + 1], right[..i + 1]) && RuleSize(left[..i + 1], right[..i + 1], i) > USIZE_MAX
    ensures Build(left, right).None?
  {
    if Ordered(left, right) {
      ExpandPrefix(left, right, i + 1, NTERM + i);
      assert RuleSize(left, right, i) > USIZE_MAX;
    }
  }
}
