// Unbiased index draws from a keystream by rejection sampling
// (src/fec/interleaver.rs, CsprngLayer::next_index).

module Keystream {
  import opened Format

  const TWO32: nat := 0x1_0000_0000
  const TWO31: nat := 0x8000_0000

  // The keystream of one (key, nonce) pair, byte by byte.
  type Stream = nat -> byte

  // The i-th little-endian 32-bit word.
  function Word(ks: Stream, i: nat): (x: nat)
    ensures x < TWO32
  {
    ks(4 * i) as nat + 0x100 * ks(4 * i + 1) as nat
    + 0x1_0000 * ks(4 * i + 2) as nat + 0x100_0000 * ks(4 * i + 3) as nat
  }

  function Limit(range: nat): nat
    requires range >= 1
  {
    TWO32 / range * range
  }

  // `limit` is the largest multiple of `range` not above 2^32.
  lemma {:induction false} LimitIsLargestMultiple(range: nat, m: nat)
    requires range >= 1
    ensures Limit(range) <= TWO32
    ensures m * range <= TWO32 ==> m * range <= Limit(range)
  {
    DivModFacts(TWO32, range);
    if m > TWO32 / range {
      MulMono(TWO32 / range + 1, m, range);
      assert (TWO32 / range + 1) * range == Limit(range) + range;
    } else {
      MulMono(m, TWO32 / range, range);
    }
  }

  // Strictly more than half of all draws are accepted.
  lemma {:induction false} MostDrawsAccepted(range: nat)
    requires 1 <= range <= TWO32
    ensures TWO31 < Limit(range) <= TWO32
  {
    DivModFacts(TWO32, range);
    if TWO32 / range >= 1 {
      MulMono(1, TWO32 / range, range);
    }
  }

  // The accepted draws that yield residue r.
  function Residue(range: nat, r: nat): set<nat>
    requires range >= 1
  {
    set x: nat | x < Limit(range) && x % range == r
  }

  // Each residue has exactly floor(2^32 / range) accepted draws.
  lemma DrawsAreUnbiased(range: nat, r: nat)
    requires 1 <= range && r < range
    ensures |Residue(range, r)| == TWO32 / range
  {
    CountResidue(range, r, TWO32 / range);
  }

  lemma {:induction false} CountResidue(range: nat, r: nat, q: nat)
    requires 1 <= range && r < range
    ensures |set x: nat | x < q * range && x % range == r| == q
  {
    var all := set x: nat | x < q * range && x % range == r;
    if q == 0 {
      assert all == {};
    } else {
      var prev := q - 1;
      CountResidue(range, r, prev);
      var fewer := set x: nat | x < prev * range && x % range == r;
      var top := prev * range + r;
      assert q * range == prev * range + range;
      DivModUnique(top, range, prev, r);
      forall x | x in all ensures x in fewer + {top} {
        if x >= prev * range {
          DivModUnique(x, range, prev, x - prev * range);
        }
      }
      assert all == fewer + {top};
    }
  }

  predicate Accepts(ks: Stream, range: nat, i: nat)
    requires range >= 1
  {
    Word(ks, i) < Limit(range)
  }

  ghost predicate LowWordAhead(ks: Stream, i: nat) {
    exists j :: i <= j && Word(ks, j) < TWO31
  }

  // From every position on, some word has its top bit clear. This is what a
  // real keystream is relied on for; it is enough for every range.
  ghost predicate Lively(ks: Stream) {
    forall i: nat :: LowWordAhead(ks, i)
  }

  ghost predicate FirstAt(ks: Stream, range: nat, i: nat, j: nat)
    requires range >= 1
  {
    && i <= j && Accepts(ks, range, j)
    && forall m :: i <= m < j ==> !Accepts(ks, range, m)
  }

  ghost function ScanTo(ks: Stream, range: nat, i: nat, bound: nat): (j: nat)
    requires range >= 1 && i <= bound && Accepts(ks, range, bound)
    ensures FirstAt(ks, range, i, j)
    decreases bound - i
  {
    if Accepts(ks, range, i) then i else ScanTo(ks, range, i + 1, bound)
  }

  // The loop's exact termination condition.
  ghost predicate AcceptAhead(ks: Stream, range: nat, i: nat)
    requires range >= 1
  {
    exists j :: i <= j && Accepts(ks, range, j)
  }

  lemma LivelyAccepts(ks: Stream, range: nat, i: nat)
    requires Lively(ks) && 1 <= range <= TWO32
    ensures AcceptAhead(ks, range, i)
  {
    assert LowWordAhead(ks, i);
    var j :| i <= j && Word(ks, j) < TWO31;
    MostDrawsAccepted(range);
    assert Accepts(ks, range, j);
  }

  // How far the first acceptable word lies ahead: the loop's variant.
  ghost function Gap(ks: Stream, range: nat, i: nat): (g: nat)
    requires range >= 1 && AcceptAhead(ks, range, i)
    ensures FirstAt(ks, range, i, i + g)
  {
    var bound :| i <= bound && Accepts(ks, range, bound);
    ScanTo(ks, range, i, bound) - i
  }

  lemma {:induction false} GapShrinks(ks: Stream, range: nat, i: nat)
    requires range >= 1 && AcceptAhead(ks, range, i) && !Accepts(ks, range, i)
    ensures AcceptAhead(ks, range, i + 1) && Gap(ks, range, i) == Gap(ks, range, i + 1) + 1
  {
    assert FirstAt(ks, range, i, i + Gap(ks, range, i));
    assert FirstAt(ks, range, i, i + 1 + Gap(ks, range, i + 1));
  }

  // The first acceptable word at or after i.
  function FirstAccepted(ks: Stream, range: nat, i: nat): (j: nat)
    requires range >= 1 && AcceptAhead(ks, range, i)
    decreases Gap(ks, range, i)
  {
    if Accepts(ks, range, i) then i
    else
      GapShrinks(ks, range, i);
      FirstAccepted(ks, range, i + 1)
  }

  lemma FirstStep(ks: Stream, range: nat, i: nat)
    requires range >= 1 && AcceptAhead(ks, range, i)
    ensures Word(ks, i) < Limit(range) ==> FirstAccepted(ks, range, i) == i
    ensures Word(ks, i) >= Limit(range) ==>
              && AcceptAhead(ks, range, i + 1)
              && FirstAccepted(ks, range, i) == FirstAccepted(ks, range, i + 1)
              && Gap(ks, range, i) == Gap(ks, range, i + 1) + 1
  {
  }

  // It is accepted, nothing before it is, and that determines it.
  lemma {:induction false} FirstAcceptedExact(ks: Stream, range: nat, i: nat, j: nat)
    requires range >= 1 && AcceptAhead(ks, range, i)
    ensures FirstAccepted(ks, range, i) == j <==> FirstAt(ks, range, i, j)
    decreases Gap(ks, range, i)
  {
    if !Accepts(ks, range, i) {
      GapShrinks(ks, range, i);
      FirstAcceptedExact(ks, range, i + 1, j);
    }
  }

  // A cipher positioned in its keystream.
  class KeystreamCipher {
    const ks: Stream
    var pos: nat

    constructor (ks: Stream)
      ensures this.ks == ks && pos == 0
    {
      this.ks := ks;
      pos := 0;
    }

    // Keystream applied to a zeroed buffer is the keystream itself.
    method ApplyToZeroed(buf: array<byte>)
      requires forall k :: 0 <= k < buf.Length ==> buf[k] == 0
      modifies this`pos, buf
      ensures pos == old(pos) + buf.Length
      ensures forall k :: 0 <= k < buf.Length ==> buf[k] == ks(old(pos) + k)
    {
      for k := 0 to buf.Length
        invariant pos == old(pos) + k
        invariant forall m :: 0 <= m < k ==> buf[m] == ks(old(pos) + m)
      {
        buf[k] := ks(pos);
        pos := pos + 1;
      }
    }
  }

  // One draw: four keystream bytes read as a little-endian word.
  method NextWord(cipher: KeystreamCipher, ghost i: nat) returns (x: nat)
    requires cipher.pos == 4 * i
    modifies cipher
    ensures x == Word(cipher.ks, i) && cipher.pos == 4 * (i + 1)
  {
    var buf := new byte[4](_ => 0);
    cipher.ApplyToZeroed(buf);
    x := buf[0] as nat + 0x100 * buf[1] as nat + 0x1_0000 * buf[2] as nat + 0x100_0000 * buf[3] as nat;
  }

  // The retry loop returns the residue of the first acceptable word and leaves
  // the cipher just past it. `start` is the word the cipher stands at.
  method NextIndex(cipher: KeystreamCipher, range: nat, ghost start: nat) returns (x: nat)
    requires 1 <= range < TWO32 && AcceptAhead(cipher.ks, range, start) && cipher.pos == 4 * start
    modifies cipher
    ensures var j := FirstAccepted(cipher.ks, range, start);
            x == Word(cipher.ks, j) % range && cipher.pos == 4 * (j + 1)
    ensures x < range
  {
    hide FirstAccepted, Gap, AcceptAhead, FirstAt, Limit, Word;
    var limit := Limit(range);
    ghost var i := start;
    while true
      invariant cipher.pos == 4 * i && AcceptAhead(cipher.ks, range, i)
      invariant FirstAccepted(cipher.ks, range, i) == FirstAccepted(cipher.ks, range, start)
      decreases Gap(cipher.ks, range, i)
    {
      var word := NextWord(cipher, i);
      FirstStep(cipher.ks, range, i);
      if word < limit {
        return word % range;
      }
      i := i + 1;
    }
  }
}
