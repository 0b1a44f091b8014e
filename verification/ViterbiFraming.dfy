// The chunked framing of the inner code (src/fec/viterbi.rs): every sub-block
// boundary is recovered from the total body length alone.

module ViterbiFraming {
  import opened Format

  const FULL_CHUNK_BODY: nat := 2 * VITERBI_CHUNK + TERMINATION_OVERHEAD
  const MIN_CHUNK_BODY: nat := 2 + TERMINATION_OVERHEAD

  // A chunk is as many whole codewords as a single block may carry.
  lemma ChunkIsLargest(k: nat)
    ensures 8 * (k * RS_BLOCK) <= MAX_SUPPORTED_INFO_BITS <==> k * RS_BLOCK <= VITERBI_CHUNK
    ensures VITERBI_CHUNK == 124_950
  {
  }

  // Coded bits in a body: the last byte always carries four padding bits.
  function CodedNbits(bodyLen: nat): nat
    requires bodyLen >= MIN_CHUNK_BODY
  {
    8 * bodyLen - 4
  }

  function BodyLengths(total: nat): Res<seq<nat>> {
    var full, rem := total / FULL_CHUNK_BODY, total % FULL_CHUNK_BODY;
    var bodies := seq(full, _ => FULL_CHUNK_BODY);
    if rem == 0 then Success(bodies)
    else if rem < MIN_CHUNK_BODY || rem % 2 != 0 then Failure(InvalidInput)
    else Success(bodies + [rem])
  }

  // Information bytes of one body.
  function InfoLen(body: nat): nat
    requires body >= MIN_CHUNK_BODY
  {
    body / 2 - 1
  }

  predicate Bodies(lens: seq<nat>) {
    forall i :: 0 <= i < |lens| ==> MIN_CHUNK_BODY <= lens[i] <= FULL_CHUNK_BODY && lens[i] % 2 == 0
  }

  function Sum(lens: seq<nat>): nat {
    if lens == [] then 0 else lens[0] + Sum(lens[1..])
  }

  function InfoSum(lens: seq<nat>): nat
    requires Bodies(lens)
  {
    if lens == [] then 0 else InfoLen(lens[0]) + InfoSum(lens[1..])
  }

  function MaxInfo(lens: seq<nat>): (m: nat)
    requires Bodies(lens)
    ensures m <= VITERBI_CHUNK
    ensures forall i :: 0 <= i < |lens| ==> InfoLen(lens[i]) <= m
  {
    if lens == [] then 0
    else
      var m := MaxInfo(lens[1..]);
      assert forall i :: 1 <= i < |lens| ==> lens[i] == lens[1..][i - 1];
      if InfoLen(lens[0]) <= m then m else InfoLen(lens[0])
  }

  // The scratch is sized by a body that is really there.
  lemma {:induction false} MaxInfoAttained(lens: seq<nat>)
    requires Bodies(lens) && lens != []
    ensures exists i :: 0 <= i < |lens| && InfoLen(lens[i]) == MaxInfo(lens)
  {
    if |lens| > 1 && InfoLen(lens[0]) <= MaxInfo(lens[1..]) {
      MaxInfoAttained(lens[1..]);
      var i :| 0 <= i < |lens| - 1 && InfoLen(lens[1..][i]) == MaxInfo(lens[1..]);
      assert InfoLen(lens[i + 1]) == MaxInfo(lens);
    } else {
      assert InfoLen(lens[0]) == MaxInfo(lens);
    }
  }

  function RsLenFromBody(bodyLen: nat): Res<nat> {
    match BodyLengths(bodyLen)
    case Failure(e) => Failure(e)
    case Success(lens) => BodyLengthsValid(bodyLen); Success(InfoSum(lens))
  }

  lemma BodyLengthsValid(total: nat)
    ensures BodyLengths(total).Success? ==> Bodies(BodyLengths(total).value)
  {
  }

  // What the sender emits for L stream bytes.
  function CodedLen(l: nat): nat {
    2 * l + TERMINATION_OVERHEAD * CeilDiv(l, VITERBI_CHUNK)
  }

  // The body lengths the sender's chunking gives rise to.
  function ChunkLens(l: nat): (lens: seq<nat>)
    ensures Bodies(lens)
  {
    if l == 0 then []
    else if l <= VITERBI_CHUNK then [2 * l + TERMINATION_OVERHEAD]
    else [FULL_CHUNK_BODY] + ChunkLens(l - VITERBI_CHUNK)
  }

  // q full bodies, then one for the r bytes left over.
  function FullThenRest(q: nat, r: nat): (lens: seq<nat>)
    requires r < VITERBI_CHUNK
    ensures Bodies(lens)
  {
    seq(q, _ => FULL_CHUNK_BODY) + if r == 0 then [] else [2 * r + TERMINATION_OVERHEAD]
  }

  lemma PeelOne(q: nat, r: nat)
    requires q > 0 && r < VITERBI_CHUNK
    ensures var lens := FullThenRest(q, r);
            lens[0] == FULL_CHUNK_BODY && lens[1..] == FullThenRest(q - 1, r)
            && lens == [FULL_CHUNK_BODY] + FullThenRest(q - 1, r)
  {
  }

  lemma {:induction false} SenderBodies(q: nat, r: nat)
    requires r < VITERBI_CHUNK
    ensures ChunkLens(q * VITERBI_CHUNK + r) == FullThenRest(q, r)
  {
    if q > 0 {
      PeelOne(q, r);
      SenderBodies(q - 1, r);
      if q == 1 && r == 0 {
        assert FullThenRest(0, 0) == [];
      }
    }
  }

  lemma {:induction false} BodyTotals(q: nat, r: nat)
    requires r < VITERBI_CHUNK
    ensures Sum(FullThenRest(q, r)) == q * FULL_CHUNK_BODY + TailBody(r)
    ensures InfoSum(FullThenRest(q, r)) == q * VITERBI_CHUNK + r
  {
    var lens := FullThenRest(q, r);
    if q > 0 {
      PeelOne(q, r);
      BodyTotals(q - 1, r);
    } else if r > 0 {
      assert lens == [2 * r + TERMINATION_OVERHEAD] && lens[1..] == [];
    }
  }

  function TailBody(r: nat): nat {
    if r == 0 then 0 else 2 * r + TERMINATION_OVERHEAD
  }

  lemma CodedLenSplit(l: nat)
    ensures CodedLen(l) == l / VITERBI_CHUNK * FULL_CHUNK_BODY + TailBody(l % VITERBI_CHUNK)
  {
  }

  lemma ReceiverBodies(q: nat, r: nat)
    requires r < VITERBI_CHUNK
    ensures BodyLengths(q * FULL_CHUNK_BODY + TailBody(r)) == Success(FullThenRest(q, r))
  {
    DivModUnique(q * FULL_CHUNK_BODY + TailBody(r), FULL_CHUNK_BODY, q, TailBody(r));
    if r == 0 {
      assert FullThenRest(q, r) == seq(q, _ => FULL_CHUNK_BODY);
    }
  }

  // The receiver's boundaries are the sender's.
  lemma {:induction false} BoundariesAgree(l: nat)
    ensures BodyLengths(CodedLen(l)) == Success(ChunkLens(l))
    ensures Sum(ChunkLens(l)) == CodedLen(l) && InfoSum(ChunkLens(l)) == l
  {
    hide BodyLengths, ChunkLens, FullThenRest, Sum, InfoSum, CodedLen;
    var q, r := l / VITERBI_CHUNK, l % VITERBI_CHUNK;
    CodedLenSplit(l);
    SenderBodies(q, r);
    ReceiverBodies(q, r);
    BodyTotals(q, r);
  }

  // Every accepted length is the sender's length of some stream.
  lemma AcceptedIsImage(n: nat) returns (l: nat)
    requires BodyLengths(n).Success?
    ensures n == CodedLen(l)
  {
    var full, rem := n / FULL_CHUNK_BODY, n % FULL_CHUNK_BODY;
    var r := if rem == 0 then 0 else rem / 2 - 1;
    l := full * VITERBI_CHUNK + r;
    DivModFacts(n, FULL_CHUNK_BODY);
    assert rem == TailBody(r);
    assert r < VITERBI_CHUNK;
    hide CodedLen, BodyLengths, TailBody;
    DivModUnique(l, VITERBI_CHUNK, full, r);
    CodedLenSplit(l);
  }

  // rs_len_from_body accepts exactly the lengths the sender emits, and returns
  // the one stream length behind each.
  lemma FramingExact(n: nat, l: nat)
    ensures RsLenFromBody(n) == Success(l) <==> n == CodedLen(l)
    ensures RsLenFromBody(n).Failure? <==> forall m: nat :: n != CodedLen(m)
  {
    BoundariesAgree(l);
    if BodyLengths(n).Success? {
      var m := AcceptedIsImage(n);
      BoundariesAgree(m);
    } else {
      forall m: nat ensures n != CodedLen(m) {
        BoundariesAgree(m);
      }
    }
  }

  // Every body fits the decoder sized from the largest one, whose bit count is
  // under the inner code's cap; and its bit count inverts the encoder's.
  lemma BodiesFit(total: nat)
    requires BodyLengths(total).Success?
    ensures var lens := BodyLengths(total).value;
            && Bodies(lens) && Sum(lens) == total
            && MaxInfo(lens) * 8 <= MAX_SUPPORTED_INFO_BITS
            && forall i :: 0 <= i < |lens| ==>
                 && InfoLen(lens[i]) <= MaxInfo(lens)
                 && CodedNbits(lens[i]) == 2 * (8 * InfoLen(lens[i]) + 6)
  {
    var l := AcceptedIsImage(total);
    BoundariesAgree(l);
  }
}
