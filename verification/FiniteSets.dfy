// Sizes of finite sets of naturals.

module FiniteSets {
  function Interval(a: nat, r: nat): (s: set<nat>)
    ensures |s| == r && forall j :: j in s <==> a <= j < a + r
  {
    if r == 0 then {} else Interval(a, r - 1) + {a + r - 1}
  }

  lemma {:induction false} SubsetSize(a: set<nat>, b: set<nat>)
    requires a <= b
    ensures |a| <= |b|
  {
    assert b == a + (b - a);
  }

  lemma {:induction false} LeastOf(s: set<nat>) returns (m: nat)
    requires s != {}
    ensures m in s && forall k :: k in s ==> m <= k
  {
    m :| m in s;
    var below := set k | k in s && k < m;
    if below == {} {
      forall k | k in s ensures m <= k {
        assert k !in below;
      }
    } else {
      assert m !in below;
      var m' := LeastOf(below);
      assert m' in below;
      forall k | k in s ensures m' <= k {
        assert k in below || m <= k;
      }
      m := m';
    }
  }

  // A one-to-one map of a into b.
  lemma {:induction false} InjectionSize(a: set<nat>, b: set<nat>, f: nat --> nat)
    requires forall i :: i in a ==> f.requires(i) && f(i) in b
    requires forall i, j :: i in a && j in a && f(i) == f(j) ==> i == j
    ensures |a| <= |b|
    decreases |a|
  {
    if a != {} {
      var i :| i in a;
      InjectionSize(a - {i}, b - {f(i)}, f);
    }
  }
}
