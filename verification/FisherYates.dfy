// The Fisher-Yates shuffle of src/fec/interleaver.rs: it is one-to-one from draw
// sequences to permutations, and exactly uniform over accepted keystream words.

module FisherYates {
  import opened Permutations
  import opened Keystream

  // c[i] is the partner drawn for place i; place 0 has no choice.
  predicate ValidDraws(c: seq<nat>) {
    forall i :: 0 <= i < |c| ==> c[i] <= i
  }

  // Places |c|-1 down to 1 are each swapped with their drawn partner.
  function Shuffle(p: seq<nat>, c: seq<nat>): (r: seq<nat>)
    requires |c| <= |p| && ValidDraws(c)
    ensures |r| == |p|
    decreases |c|
  {
    if |c| <= 1 then p
    else
      var i := |c| - 1;
      Shuffle(Swap(p, i, c[i]), c[..i])
  }

  lemma {:induction false} ShuffleIsPerm(p: seq<nat>, c: seq<nat>)
    requires IsPerm(p) && |c| <= |p| && ValidDraws(c)
    ensures IsPerm(Shuffle(p, c))
    decreases |c|
  {
    if |c| > 1 {
      var i := |c| - 1;
      SwapIsPerm(p, i, c[i]);
      ShuffleIsPerm(Swap(p, i, c[i]), c[..i]);
    }
  }

  lemma {:induction false} ShuffleKeepsTail(p: seq<nat>, c: seq<nat>)
    requires |c| <= |p| && ValidDraws(c)
    ensures Shuffle(p, c)[|c|..] == p[|c|..]
    decreases |c|
  {
    if |c| > 1 {
      var i := |c| - 1;
      var p' := Swap(p, i, c[i]);
      ShuffleKeepsTail(p', c[..i]);
      assert Shuffle(p, c)[|c|..] == Shuffle(p', c[..i])[i..][1..] == p'[i..][1..];
    }
  }

  // The partner of place |c|-1 can be read off the result.
  lemma {:induction false} LastPlaceTellsDraw(p: seq<nat>, c: seq<nat>)
    requires 1 < |c| <= |p| && ValidDraws(c)
    ensures Shuffle(p, c)[|c| - 1] == p[c[|c| - 1]]
  {
    var i := |c| - 1;
    var p' := Swap(p, i, c[i]);
    ShuffleKeepsTail(p', c[..i]);
    assert Shuffle(p, c)[i] == Shuffle(p', c[..i])[i..][0];
  }

  // Swapping q[i] into place i makes p agree with q from i on.
  lemma PlaceFromTop(p: seq<nat>, q: seq<nat>, i: nat)
    requires IsPerm(p) && IsPerm(q) && |p| == |q| && i < |p| && p[i + 1..] == q[i + 1..]
    ensures var j := IndexOf(p, q[i]);
            j <= i && IsPerm(Swap(p, i, j)) && Swap(p, i, j)[i..] == q[i..]
  {
    var j := IndexOf(p, q[i]);
    assert forall k :: i < k < |p| ==> p[k] == p[i + 1..][k - i - 1] == q[i + 1..][k - i - 1] == q[k];
    SwapIsPerm(p, i, j);
  }

  // The draws that lead from p to q, place by place from the top.
  function DrawsBetween(p: seq<nat>, q: seq<nat>, m: nat): (c: seq<nat>)
    requires IsPerm(p) && IsPerm(q) && |p| == |q| && m <= |p| && p[m..] == q[m..]
    ensures |c| == m && ValidDraws(c)
    decreases m
  {
    if m == 0 then []
    else
      PlaceFromTop(p, q, m - 1);
      var j := IndexOf(p, q[m - 1]);
      DrawsBetween(Swap(p, m - 1, j), q, m - 1) + [j]
  }

  lemma {:induction false} DrawsBetweenReach(p: seq<nat>, q: seq<nat>, m: nat)
    requires IsPerm(p) && IsPerm(q) && |p| == |q| && m <= |p| && p[m..] == q[m..]
    ensures Shuffle(p, DrawsBetween(p, q, m)) == q
    decreases m
  {
    if m > 0 {
      PlaceFromTop(p, q, m - 1);
      var j := IndexOf(p, q[m - 1]);
      var p' := Swap(p, m - 1, j);
      DrawsBetweenReach(p', q, m - 1);
      var rest := DrawsBetween(p', q, m - 1);
      if m > 1 {
        ShuffleLast(p, rest, j);
      } else {
        assert p[0..] == p && p'[0..] == p' && q[0..] == q;
      }
    }
  }

  lemma ShuffleLast(p: seq<nat>, c: seq<nat>, d: nat)
    requires 1 <= |c| < |p| && ValidDraws(c) && d <= |c|
    ensures Shuffle(p, c + [d]) == Shuffle(Swap(p, |c|, d), c)
  {
    hide Shuffle, Swap;
    assert (c + [d])[..|c|] == c;
    ShuffleStep(p, c + [d]);
  }

  lemma ShuffleStep(p: seq<nat>, c: seq<nat>)
    requires 1 < |c| <= |p| && ValidDraws(c)
    ensures Shuffle(p, c) == Shuffle(Swap(p, |c| - 1, c[|c| - 1]), c[..|c| - 1])
  {
  }

  lemma {:induction false} ShuffleInjective(p: seq<nat>, c: seq<nat>, c': seq<nat>)
    requires IsPerm(p) && |c| == |c'| <= |p| && ValidDraws(c) && ValidDraws(c')
    requires Shuffle(p, c) == Shuffle(p, c')
    ensures c == c'
    decreases |c|
  {
    if |c| > 1 {
      var i := |c| - 1;
      LastPlaceTellsDraw(p, c);
      LastPlaceTellsDraw(p, c');
      SwapIsPerm(p, i, c[i]);
      ShuffleInjective(Swap(p, i, c[i]), c[..i], c'[..i]);
      assert c == c[..i] + [c[i]] && c' == c'[..i] + [c'[i]];
    }
  }

  function DrawsOf(q: seq<nat>): (c: seq<nat>)
    requires IsPerm(q)
    ensures |c| == |q| && ValidDraws(c) && Shuffle(Identity(|q|), c) == q
  {
    IdentityIsPerm(|q|);
    DrawsBetweenReach(Identity(|q|), q, |q|);
    DrawsBetween(Identity(|q|), q, |q|)
  }

  // Each permutation comes from exactly one draw sequence, and each draw
  // sequence gives a permutation.
  lemma {:induction false} ShuffleBijective(q: seq<nat>, c: seq<nat>)
    requires |c| == |q| && ValidDraws(c)
    ensures IsPerm(Shuffle(Identity(|c|), c))
    ensures IsPerm(q) ==> (Shuffle(Identity(|c|), c) == q <==> c == DrawsOf(q))
  {
    IdentityIsPerm(|c|);
    ShuffleIsPerm(Identity(|c|), c);
    if IsPerm(q) && Shuffle(Identity(|c|), c) == q {
      ShuffleInjective(Identity(|c|), c, DrawsOf(q));
    }
  }

  // ----- From keystream words to draws -----

  // ws[i - 1] is the word drawn for place i.
  predicate AcceptedWords(ws: seq<nat>) {
    forall i :: 0 <= i < |ws| ==> ws[i] < Limit(i + 2)
  }

  function Residues(ws: seq<nat>): (c: seq<nat>)
    ensures |c| == |ws| + 1 && ValidDraws(c)
  {
    seq(|ws| + 1, i requires 0 <= i < |ws| + 1 => if i == 0 then 0 else ws[i - 1] % (i + 1))
  }

  // All accepted word vectors whose draws are c.
  function Preimages(c: seq<nat>): set<seq<nat>>
    requires |c| >= 1
  {
    if |c| == 1 then {[]}
    else
      var n := |c| - 1;
      Extensions(Preimages(c[..n]), Residue(n + 1, c[n]))
  }

  function Extensions(a: set<seq<nat>>, b: set<nat>): set<seq<nat>> {
    set v, x | v in a && x in b :: v + [x]
  }

  lemma ExtensionMember(a: set<seq<nat>>, b: set<nat>, s: seq<nat>)
    ensures s in Extensions(a, b) <==> s != [] && s[..|s| - 1] in a && s[|s| - 1] in b
  {
    if s in Extensions(a, b) {
      var v, x :| v in a && x in b && s == v + [x];
      assert s[..|s| - 1] == v;
    }
    if s != [] && s[..|s| - 1] in a && s[|s| - 1] in b {
      assert s == s[..|s| - 1] + [s[|s| - 1]];
    }
  }

  lemma {:induction false} PreimagesExact(c: seq<nat>, ws: seq<nat>)
    requires |c| >= 1 && ValidDraws(c)
    ensures ws in Preimages(c) <==> |ws| == |c| - 1 && AcceptedWords(ws) && Residues(ws) == c
    decreases |c|
  {
    if |c| == 1 {
      assert c == [0] == Residues([]);
    } else if ws == [] {
      ExtensionMember(Preimages(c[..|c| - 1]), Residue(|c|, c[|c| - 1]), ws);
    } else {
      var n, m := |c| - 1, |ws| - 1;
      ExtensionMember(Preimages(c[..n]), Residue(n + 1, c[n]), ws);
      PreimagesExact(c[..n], ws[..m]);
      ResiduesStep(ws);
      assert c == c[..n] + [c[n]];
      assert AcceptedWords(ws) <==> AcceptedWords(ws[..m]) && ws[m] < Limit(m + 2);
    }
  }

  lemma ResiduesStep(ws: seq<nat>)
    requires ws != []
    ensures Residues(ws) == Residues(ws[..|ws| - 1]) + [ws[|ws| - 1] % (|ws| + 1)]
  {
  }

  lemma SplitExtensions(a: set<seq<nat>>, v: seq<nat>, b: set<nat>)
    requires v !in a
    ensures Extensions(a + {v}, b) == Extensions(a, b) + Extensions({v}, b)
    ensures |Extensions(a + {v}, b)| == |Extensions(a, b)| + |Extensions({v}, b)|
  {
    forall s: seq<nat>
      ensures s in Extensions(a + {v}, b) <==> s in Extensions(a, b) + Extensions({v}, b)
      ensures s in Extensions({v}, b) ==> s !in Extensions(a, b)
    {
      ExtensionMember(a + {v}, b, s);
      ExtensionMember(a, b, s);
      ExtensionMember({v}, b, s);
    }
    assert Extensions(a, b) !! Extensions({v}, b);
  }

  lemma CountStep(a: set<seq<nat>>, v: seq<nat>, n: nat, b: set<nat>)
    requires v in a && n >= 1 && |Extensions(a - {v}, b)| == (n - 1) * |b|
    ensures |Extensions(a, b)| == n * |b|
  {
    CountOneExtension(v, b);
    SplitExtensions(a - {v}, v, b);
    assert a - {v} + {v} == a;
    assert n * |b| == (n - 1) * |b| + |b|;
  }

  lemma {:induction false} CountExtensions(a: set<seq<nat>>, n: nat, b: set<nat>)
    requires |a| == n
    ensures |Extensions(a, b)| == n * |b|
    decreases n
  {
    if n == 0 {
      assert Extensions(a, b) == {};
    } else {
      var v :| v in a;
      CountExtensions(a - {v}, n - 1, b);
      CountStep(a, v, n, b);
    }
  }

  lemma {:induction false} CountOneExtension(v: seq<nat>, b: set<nat>)
    ensures |Extensions({v}, b)| == |b|
    decreases |b|
  {
    if b == {} {
      assert Extensions({v}, b) == {};
    } else {
      var x :| x in b;
      CountOneExtension(v, b - {x});
      ExtensionMember({v}, b - {x}, v + [x]);
      assert Extensions({v}, b) == Extensions({v}, b - {x}) + {v + [x]};
    }
  }

  // floor(2^32 / 2) * floor(2^32 / 3) * ... * floor(2^32 / n)
  function Ways(n: nat): nat {
    if n <= 1 then 1 else Ways(n - 1) * (TWO32 / n)
  }

  lemma {:induction false} CountPreimages(c: seq<nat>)
    requires |c| >= 1 && ValidDraws(c)
    ensures |Preimages(c)| == Ways(|c|)
    decreases |c|
  {
    if |c| > 1 {
      var n := |c| - 1;
      CountPreimages(c[..n]);
      DrawsAreUnbiased(n + 1, c[n]);
      CountExtensions(Preimages(c[..n]), Ways(n), Residue(n + 1, c[n]));
    }
  }

  // Exact uniformity: every permutation of 0..n is produced by the same number,
  // Ways(n), of accepted word vectors.
  lemma {:induction false} ShuffleUniform(q: seq<nat>)
    requires |q| >= 1 && IsPerm(q)
    ensures |Preimages(DrawsOf(q))| == Ways(|q|)
    ensures forall ws: seq<nat> :: ws in Preimages(DrawsOf(q)) <==>
              |ws| == |q| - 1 && AcceptedWords(ws) && Shuffle(Identity(|q|), Residues(ws)) == q
  {
    CountPreimages(DrawsOf(q));
    forall ws: seq<nat>
      ensures ws in Preimages(DrawsOf(q)) <==>
              |ws| == |q| - 1 && AcceptedWords(ws) && Shuffle(Identity(|q|), Residues(ws)) == q
    {
      PreimagesExact(DrawsOf(q), ws);
      if |ws| == |q| - 1 {
        ShuffleBijective(q, Residues(ws));
      }
    }
  }

  // ----- The keyed permutation of one window -----

  // Every draw of a window of n places ends, reading from word i: the exact
  // condition under which the shuffle terminates.
  ghost predicate Drawable(ks: Stream, n: nat, i: nat) {
    n <= 1 || (AcceptAhead(ks, n, i) && Drawable(ks, n - 1, FirstAccepted(ks, n, i) + 1))
  }

  // A lively keystream serves every window.
  lemma {:induction false} LivelyIsDrawable(ks: Stream, n: nat, i: nat)
    requires Lively(ks) && n <= TWO32
    ensures Drawable(ks, n, i)
  {
    if n > 1 {
      LivelyAccepts(ks, n, i);
      LivelyIsDrawable(ks, n - 1, FirstAccepted(ks, n, i) + 1);
    }
  }

  // The draws for places n-1 down to 1, reading from word i of the keystream.
  function CipherDraws(ks: Stream, n: nat, i: nat): (c: seq<nat>)
    requires n >= 1 && Drawable(ks, n, i)
    ensures |c| == n && ValidDraws(c)
    decreases n
  {
    if n == 1 then [0]
    else
      var j := FirstAccepted(ks, n, i);
      CipherDraws(ks, n - 1, j + 1) + [Word(ks, j) % n]
  }

  // The accepted words behind those draws.
  function CipherWords(ks: Stream, n: nat, i: nat): (ws: seq<nat>)
    requires n >= 1 && Drawable(ks, n, i)
    ensures |ws| == n - 1
    decreases n
  {
    if n == 1 then []
    else
      var j := FirstAccepted(ks, n, i);
      CipherWords(ks, n - 1, j + 1) + [Word(ks, j)]
  }

  lemma {:induction false} CipherStep(ks: Stream, n: nat, i: nat)
    requires n >= 2 && Drawable(ks, n, i)
    ensures var j := FirstAccepted(ks, n, i);
            && CipherDraws(ks, n, i) == CipherDraws(ks, n - 1, j + 1) + [Word(ks, j) % n]
            && CipherWords(ks, n, i) == CipherWords(ks, n - 1, j + 1) + [Word(ks, j)]
            && Word(ks, j) < Limit(n)
  {
    FirstAcceptedExact(ks, n, i, FirstAccepted(ks, n, i));
  }

  lemma AcceptedAppend(ws: seq<nat>, x: nat)
    requires AcceptedWords(ws) && x < Limit(|ws| + 2)
    ensures AcceptedWords(ws + [x])
    ensures Residues(ws + [x]) == Residues(ws) + [x % (|ws| + 2)]
  {
  }

  ghost predicate DrawsMatchWords(ks: Stream, n: nat, i: nat)
    requires n >= 1 && Drawable(ks, n, i)
  {
    var ws := CipherWords(ks, n, i);
    AcceptedWords(ws) && CipherDraws(ks, n, i) == Residues(ws)
  }

  lemma {:induction false} DrawsMatchStep(ks: Stream, n: nat, i: nat)
    requires n >= 2 && Drawable(ks, n, i)
    requires DrawsMatchWords(ks, n - 1, FirstAccepted(ks, n, i) + 1)
    ensures DrawsMatchWords(ks, n, i)
  {
    hide CipherDraws, CipherWords, FirstAccepted, Limit;
    var j := FirstAccepted(ks, n, i);
    CipherStep(ks, n, i);
    AcceptedAppend(CipherWords(ks, n - 1, j + 1), Word(ks, j));
  }

  lemma DrawsMatchBase(ks: Stream, i: nat)
    ensures DrawsMatchWords(ks, 1, i)
  {
    assert Residues([]) == [0];
  }

  // The draws a keystream yields are the residues of its accepted words.
  lemma {:induction false} DrawsAreResidues(ks: Stream, n: nat, i: nat)
    requires n >= 1 && Drawable(ks, n, i)
    ensures DrawsMatchWords(ks, n, i)
    decreases n
  {
    hide DrawsMatchWords, FirstAccepted, AcceptAhead;
    if n == 1 {
      DrawsMatchBase(ks, i);
    } else {
      DrawsAreResidues(ks, n - 1, FirstAccepted(ks, n, i) + 1);
      DrawsMatchStep(ks, n, i);
    }
  }

  function KeyedOrder(ks: Stream, n: nat): (p: seq<nat>)
    requires Drawable(ks, n, 0)
    ensures |p| == n
  {
    if n <= 1 then Identity(n) else Shuffle(Identity(n), CipherDraws(ks, n, 0))
  }

  lemma {:induction false} KeyedOrderIsPerm(ks: Stream, n: nat)
    requires Drawable(ks, n, 0)
    ensures IsPerm(KeyedOrder(ks, n))
  {
    IdentityIsPerm(n);
    if n > 1 {
      ShuffleIsPerm(Identity(n), CipherDraws(ks, n, 0));
    }
  }

  // A keystream shuffles its window into q exactly when the words it accepts are
  // one of the Ways(n) vectors counted for q.
  lemma {:induction false} KeyedOrderCounted(ks: Stream, n: nat, q: seq<nat>)
    requires 1 <= n == |q| && Drawable(ks, n, 0) && IsPerm(q)
    ensures KeyedOrder(ks, n) == q <==> CipherWords(ks, n, 0) in Preimages(DrawsOf(q))
    ensures |Preimages(DrawsOf(q))| == Ways(n)
  {
    DrawsAreResidues(ks, n, 0);
    ShuffleUniform(q);
    assert KeyedOrder(ks, n) == Shuffle(Identity(n), CipherDraws(ks, n, 0));
  }

  // The window order as the code builds it: the identity, then the shuffle.
  method ShuffledWindow(cipher: KeystreamCipher, filled: nat) returns (perm: array<nat>)
    requires Drawable(cipher.ks, filled, 0) && cipher.pos == 0 && filled < TWO32
    modifies cipher
    ensures fresh(perm) && perm[..] == KeyedOrder(cipher.ks, filled)
  {
    perm := new nat[filled](k => k);
    assert perm[..] == Identity(filled);
    if filled > 1 {
      ShuffleInPlace(cipher, perm);
    }
  }

  // Swap place i with a draw from 0..=i, highest i first.
  method ShuffleInPlace(cipher: KeystreamCipher, perm: array<nat>)
    requires 1 < perm.Length < TWO32 && Drawable(cipher.ks, perm.Length, 0) && cipher.pos == 0
    modifies cipher, perm
    ensures perm[..] == Shuffle(old(perm[..]), CipherDraws(cipher.ks, perm.Length, 0))
  {
    hide CipherDraws;
    ghost var at, c := 0, CipherDraws(cipher.ks, perm.Length, 0);
    ghost var goal := Shuffle(perm[..], c);
    for i := perm.Length downto 1
      invariant Drawable(cipher.ks, i, at) && cipher.pos == 4 * at && c == CipherDraws(cipher.ks, i, at)
      invariant |c| == i && ValidDraws(c) && Shuffle(perm[..], c) == goal
    {
      at, c := SwapDrawn(cipher, perm, i, at, c);
    }
  }

  lemma SwapIsStep(p: seq<nat>, q: seq<nat>, c: seq<nat>, rest: seq<nat>, j: nat)
    requires 1 <= |rest| < |p| && ValidDraws(rest) && j <= |rest|
    requires c == rest + [j] && q == Swap(p, |rest|, j)
    ensures ValidDraws(c) && Shuffle(q, rest) == Shuffle(p, c)
  {
  }

  // The loop's body at place i: the cipher stands at word `at`, and c holds the
  // draws still to come.
  method SwapDrawn(cipher: KeystreamCipher, perm: array<nat>, i: nat, ghost at: nat, ghost c: seq<nat>)
    returns (ghost next: nat, ghost rest: seq<nat>)
    requires 1 <= i < perm.Length < TWO32 && Drawable(cipher.ks, i + 1, at) && cipher.pos == 4 * at
    requires c == CipherDraws(cipher.ks, i + 1, at)
    modifies cipher, perm
    ensures Drawable(cipher.ks, i, next) && cipher.pos == 4 * next && rest == CipherDraws(cipher.ks, i, next)
    ensures |rest| == i && ValidDraws(rest)
    ensures Shuffle(perm[..], rest) == Shuffle(old(perm[..]), c)
  {
    ghost var p := perm[..];
    next := FirstAccepted(cipher.ks, i + 1, at) + 1;
    rest := CipherDraws(cipher.ks, i, next);
    var j := NextIndex(cipher, i + 1, at);
    assert c == rest + [j] by {
      CipherStep(cipher.ks, i + 1, at);
    }
    perm[i], perm[j] := perm[j], perm[i];
    ghost var q := perm[..];
    SwapIsStep(p, q, c, rest, j);
  }
}
