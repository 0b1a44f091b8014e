// Permutations of 0..n as index sequences, and their inverses.

module Permutations {
  predicate IsPerm(p: seq<nat>) {
    && (forall k :: 0 <= k < |p| ==> p[k] < |p|)
    && (forall k, l :: 0 <= k < l < |p| ==> p[k] != p[l])
    && (forall v :: 0 <= v < |p| ==> v in p)
  }

  // The place of v in p: the inverse permutation, pointwise.
  function IndexOf(p: seq<nat>, v: nat): (k: nat)
    requires IsPerm(p) && v < |p|
    ensures k < |p| && p[k] == v
  {
    assert v in p;
    var k :| 0 <= k < |p| && p[k] == v;
    k
  }

  lemma IndexOfUnique(p: seq<nat>, k: nat)
    requires IsPerm(p) && k < |p|
    ensures IndexOf(p, p[k]) == k
  {
  }

  function Identity(n: nat): (p: seq<nat>)
    ensures |p| == n && forall k :: 0 <= k < n ==> p[k] == k
  {
    seq(n, k => k)
  }

  lemma IdentityIsPerm(n: nat)
    ensures IsPerm(Identity(n))
  {
    var p := Identity(n);
    forall v | 0 <= v < n ensures v in p {
      assert p[v] == v;
    }
  }

  function Swap<T>(s: seq<T>, i: nat, j: nat): (r: seq<T>)
    requires i < |s| && j < |s|
    ensures |r| == |s| && r[i] == s[j] && r[j] == s[i]
    ensures forall k :: 0 <= k < |s| && k != i && k != j ==> r[k] == s[k]
  {
    s[i := s[j]][j := s[i]]
  }

  lemma SwapIsPerm(p: seq<nat>, i: nat, j: nat)
    requires IsPerm(p) && i < |p| && j < |p|
    ensures IsPerm(Swap(p, i, j))
  {
    var r := Swap(p, i, j);
    forall v | 0 <= v < |p| ensures v in r {
      var k := IndexOf(p, v);
      assert r[if k == i then j else if k == j then i else k] == v;
    }
  }
}
