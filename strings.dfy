/** The two JavaScript string tests the converter relies on: `startsWith` and `includes`. */
module Strings {

  /** `s.startsWith(p)`: `p` is a prefix of `s`. */
  predicate StartsWith(s: string, p: string)
  {
    |p| <= |s| && s[..|p|] == p
  }

  /** `k` occurs in `t` at position `i`. */
  predicate OccursAt(t: string, k: string, i: nat)
  {
    i <= |t| && StartsWith(t[i..], k)
  }

  /** `t.includes(k)`, computed by trying every start position in turn;
      it holds exactly when `k` occurs in `t` at some position. */
  function Includes(t: string, k: string): (r: bool)
    ensures r <==> exists i: nat :: OccursAt(t, k, i)
    decreases |t|
  {
    if StartsWith(t, k) then
      assert OccursAt(t, k, 0);
      true
    else if |t| == 0 then
      assert forall i: nat :: OccursAt(t, k, i) ==> i == 0;
      false
    else
      var r := Includes(t[1..], k);
      assert forall i: nat :: i + 1 <= |t| ==> t[1..][i..] == t[i + 1..];
      assert forall i: nat :: OccursAt(t, k, i) && i > 0 ==> OccursAt(t[1..], k, i - 1);
      assert forall i: nat :: OccursAt(t[1..], k, i) ==> OccursAt(t, k, i + 1);
      r
  }

  /** An occurrence survives any text added around it: `includes` is not anchored. */
  lemma IncludesInContext(t: string, k: string, a: string, b: string)
    requires Includes(t, k)
    ensures Includes(a + t + b, k)
  {
    var i: nat :| OccursAt(t, k, i);
    assert (a + t + b)[|a| + i..][..|k|] == t[i..][..|k|];
    assert OccursAt(a + t + b, k, |a| + i);
  }

  /** An occurrence of `k` in `t` brings every character of `k` into `t`. */
  lemma OccurrenceChars(t: string, k: string, i: nat, c: char)
    requires c in k
    ensures OccursAt(t, k, i) ==> c in t
  {
    if OccursAt(t, k, i) {
      var j :| 0 <= j < |k| && k[j] == c;
      assert t[i..][..|k|][j] == t[i + j];
    }
  }

  /** A text lacking one of the characters of `k` does not include `k`. */
  lemma MissingCharExcludes(t: string, k: string, c: char)
    requires c in k && c !in t
    ensures !Includes(t, k)
  {
    forall i: nat
      ensures OccursAt(t, k, i) ==> c in t
    {
      OccurrenceChars(t, k, i, c);
    }
  }
}
