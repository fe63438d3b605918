/** `reverse_complement` of src/lib.rs: DNA bytes (one char per byte) reversed and
    complemented, A with T and C with G, N staying N. Any other byte panics, which
    the model returns as `None`. */
module Dna {
  import opened Wrappers

  /** The complement of one base, or `None` for a byte the source rejects. */
  function Complement(c: char): (r: Option<char>)
    ensures r.Some? <==> c in "ACGTN"
  {
    match c
    case 'A' => Some('T')
    case 'C' => Some('G')
    case 'G' => Some('C')
    case 'T' => Some('A')
    case 'N' => Some('N')
    case _ => None
  }

  /** Complementing twice gives the base back. */
  lemma ComplementTwice(c: char)
    requires Complement(c).Some?
    ensures Complement(Complement(c).value) == Some(c)
  {
  }

  predicate IsDna(s: string)
  {
    forall i :: 0 <= i < |s| ==> Complement(s[i]).Some?
  }

  /** `r` is `s` reversed and complemented: position |s|-1-i of `r` holds the
      complement of s[i]. */
  predicate IsRevCompOf(r: string, s: string)
  {
    |r| == |s| && forall i :: 0 <= i < |s| ==> Complement(s[i]) == Some(r[|s| - 1 - i])
  }

  /** The reverse complement, defined base by base from the front; `None` as soon as a
      byte has no complement. */
  function RevComp(s: string): (r: Option<string>)
    ensures r.Some? <==> IsDna(s)
    ensures r.Some? ==> IsRevCompOf(r.value, s)
  {
    if |s| == 0 then Some([])
    else
      var c := Complement(s[0]);
      var rest := RevComp(s[1..]);
      if c.None? then None
      else if rest.None? then
        assert !IsDna(s[1..]);
        var k :| 0 <= k < |s[1..]| && Complement(s[1..][k]).None?;
        assert s[k + 1] == s[1..][k];
        None
      else
        var r := rest.value + [c.value];
        assert forall i :: 1 <= i < |s| ==> s[1..][i - 1] == s[i] && r[|s| - 1 - i] == rest.value[|s| - 2 - (i - 1)];
        Some(r)
  }

  /** `reverse_complement`: a zeroed buffer of |s| bytes, filled at n-1-i for each i. */
  method ReverseComplement(s: string) returns (r: Option<string>)
    ensures r == RevComp(s)
  {
    var n := |s|;
    var result := new char[n](_ => '\0');
    for i := 0 to n
      invariant forall k :: 0 <= k < i ==> Complement(s[k]) == Some(result[n - 1 - k])
    {
      var c := Complement(s[i]);
      if c.None? {
        return None;
      }
      result[n - 1 - i] := c.value;
    }
    assert IsRevCompOf(result[..], s);
    RevCompUnique(result[..], RevComp(s).value, s);
    return Some(result[..]);
  }

  /** A string has one reverse complement at most. */
  lemma RevCompUnique(x: string, y: string, s: string)
    requires IsRevCompOf(x, s) && IsRevCompOf(y, s)
    ensures x == y
  {
    forall j | 0 <= j < |x| ensures x[j] == y[j] {
      var k := |s| - 1 - j;
      assert Complement(s[k]) == Some(x[j]) && Complement(s[k]) == Some(y[j]);
    }
  }

  /** Reversing and complementing is symmetric. */
  lemma RevCompSymmetric(r: string, s: string)
    requires IsRevCompOf(r, s)
    ensures IsRevCompOf(s, r)
  {
    forall j | 0 <= j < |r| ensures Complement(r[j]) == Some(s[|r| - 1 - j]) {
      var k := |s| - 1 - j;
      assert Complement(s[k]) == Some(r[j]);
      ComplementTwice(s[k]);
    }
  }

  /** The reverse complement of a reverse complement is the original DNA. */
  lemma RevCompInvolution(s: string)
    requires IsDna(s)
    ensures RevComp(RevComp(s).value) == Some(s)
  {
    var r := RevComp(s).value;
    RevCompSymmetric(r, s);
    assert IsDna(r) by {
      forall j | 0 <= j < |r| ensures Complement(r[j]).Some? {
        assert Complement(r[j]) == Some(s[|r| - 1 - j]);
      }
    }
    RevCompUnique(RevComp(r).value, s, r);
  }

  /** The reverse complement of DNA is DNA. */
  lemma RevCompIsDna(s: string)
    requires IsDna(s)
    ensures IsDna(RevComp(s).value)
  {
    var r := RevComp(s).value;
    RevCompSymmetric(r, s);
    forall j | 0 <= j < |r| ensures Complement(r[j]).Some? {
      assert Complement(r[j]) == Some(s[|r| - 1 - j]);
    }
  }

  /** The reverse complement of a concatenation is the reverse complements the other
      way round. */
  lemma RevCompConcat(a: string, b: string)
    requires IsDna(a) && IsDna(b)
    ensures IsDna(a + b) && RevComp(a + b) == Some(RevComp(b).value + RevComp(a).value)
  {
    var ra, rb := RevComp(a).value, RevComp(b).value;
    var s, x := a + b, rb + ra;
    var n := |s|;
    forall i | 0 <= i < n ensures Complement(s[i]) == Some(x[n - 1 - i]) {
      if i < |a| {
        assert s[i] == a[i] && x[n - 1 - i] == ra[|a| - 1 - i];
      } else {
        assert s[i] == b[i - |a|] && x[n - 1 - i] == rb[|b| - 1 - (i - |a|)];
      }
    }
    assert IsRevCompOf(x, s);
    RevCompUnique(x, RevComp(s).value, s);
  }

  /** Only the five letters are accepted: a single other byte makes the call fail. */
  lemma RevCompRejects(a: string, c: char, b: string)
    requires c !in "ACGTN"
    ensures RevComp(a + [c] + b) == None
  {
    var s := a + [c] + b;
    assert s[|a|] == c;
  }

  lemma RevCompExample()
    ensures RevComp("ACCGTN") == Some("NACGGT")
  {
    var s, r := "ACCGTN", "NACGGT";
    assert IsRevCompOf(r, s) by {
      forall i | 0 <= i < 6 ensures Complement(s[i]) == Some(r[5 - i]) {
      }
    }
    RevCompUnique(r, RevComp(s).value, s);
  }
}
