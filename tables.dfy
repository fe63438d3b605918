/** Tables filled by inserting key/value pairs in order into a hash map
    (`HashMap::insert` in src/naive.rs, src/main.rs, src/bin/main3.rs and
    src/bin/main3/main.rs; assignment into a dict in the Python scripts): a later
    pair with the same key replaces the earlier one. */
module Tables {

  /** The table after inserting `pairs` from first to last. */
  function Inserted<K(!new), V>(pairs: seq<(K, V)>): (m: map<K, V>)
    ensures forall key :: key in m <==> exists k :: 0 <= k < |pairs| && pairs[k].0 == key
    decreases |pairs|
  {
    if |pairs| == 0 then map[]
    else
      var init := pairs[..|pairs| - 1];
      assert forall k :: 0 <= k < |init| ==> init[k] == pairs[k];
      Inserted(init)[pairs[|pairs| - 1].0 := pairs[|pairs| - 1].1]
  }

  /** A key maps to the value of its last pair. */
  lemma {:induction false} InsertedLast<K(!new), V>(pairs: seq<(K, V)>, i: nat)
    requires i < |pairs| && forall j :: i < j < |pairs| ==> pairs[j].0 != pairs[i].0
    ensures pairs[i].0 in Inserted(pairs) && Inserted(pairs)[pairs[i].0] == pairs[i].1
    decreases |pairs|
  {
    if i < |pairs| - 1 {
      var init := pairs[..|pairs| - 1];
      assert init[i] == pairs[i];
      InsertedLast(init, i);
    }
  }

  /** The insertion loop. */
  method Insert<K(!new), V>(pairs: seq<(K, V)>) returns (m: map<K, V>)
    ensures m == Inserted(pairs)
  {
    m := map[];
    for k := 0 to |pairs|
      invariant m == Inserted(pairs[..k])
    {
      assert pairs[..k + 1][..k] == pairs[..k];
      m := m[pairs[k].0 := pairs[k].1];
    }
    assert pairs[..|pairs|] == pairs;
  }
}
