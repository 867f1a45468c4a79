/** Counting positions. */
module Counting {

  /** The numbers below n, and the elements of a sequence, as sets. */
  function Below(n: nat): (b: set<nat>)
    ensures |b| == n && forall k: nat :: k in b <==> k < n
  {
    if n == 0 then {} else Below(n - 1) + {n - 1}
  }

  function Elements(perm: seq<nat>): (b: set<nat>)
    ensures forall k: nat :: k in b <==> k in perm
  {
    if perm == [] then {} else Elements(perm[1..]) + {perm[0]}
  }

  lemma {:induction false} DistinctElements(perm: seq<nat>)
    requires forall i, j :: 0 <= i < j < |perm| ==> perm[i] != perm[j]
    ensures |Elements(perm)| == |perm|
  {
    if perm != [] {
      DistinctElements(perm[1..]);
      assert perm[0] !in perm[1..];
    }
  }

  /** Distinct positions below n, n of them, are all the positions below n. */
  lemma Covers(perm: seq<nat>, n: nat)
    requires |perm| == n && forall i :: 0 <= i < |perm| ==> perm[i] < n
    requires forall i, j :: 0 <= i < j < |perm| ==> perm[i] != perm[j]
    ensures forall k: nat :: k < n ==> k in perm
  {
    var all, own := Below(n), Elements(perm);
    DistinctElements(perm);
    assert own <= all;
    assert all == own + (all - own);
    assert all - own == {};
  }

  /** More numbers than there are below n cannot all differ. */
  lemma Pigeonhole(s: seq<nat>, n: nat) returns (i: nat, j: nat)
    requires n < |s| && forall k :: 0 <= k < |s| ==> s[k] < n
    ensures i < j < |s| && s[i] == s[j]
  {
    if forall i, j :: 0 <= i < j < |s| ==> s[i] != s[j] {
      DistinctElements(s);
      SubsetSize(Elements(s), Below(n));
      assert false;
    }
    i, j :| 0 <= i < j < |s| && s[i] == s[j];
  }

  lemma SubsetSize(a: set<nat>, b: set<nat>)
    requires a <= b
    ensures |a| <= |b|
  {
    assert b == a + (b - a);
  }
}
