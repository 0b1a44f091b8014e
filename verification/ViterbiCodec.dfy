// The chunked inner codec over an external single-block code
// (src/fec/viterbi.rs, ViterbiCodec).

module ViterbiCodec {
  import opened Format
  import opened ViterbiFraming

  datatype BlockError = LengthMismatch | InputTooLong | AllocationFailed

  // The external rate-1/2, K=7 code of CCSDS 131.0-B section 3, one block at a
  // time. decodeBlock takes the scratch size in information bits, the coded bytes
  // and the coded bit count.
  datatype InnerCode = InnerCode(
    encodeBlock: Bytes -> Result<Bytes, BlockError>,
    builds: nat -> bool,
    decodeBlock: (nat, Bytes, nat) -> Result<Bytes, BlockError>)

  ghost predicate EncodesUnderCap(inner: InnerCode) {
    forall c: Bytes :: c != [] && 8 * |c| <= MAX_SUPPORTED_INFO_BITS ==>
      inner.encodeBlock(c).Success? && |inner.encodeBlock(c).value| == 2 * |c| + 2
  }

  ghost predicate BuildsUnderCap(inner: InnerCode) {
    forall bits: nat :: bits <= MAX_SUPPORTED_INFO_BITS ==> inner.builds(bits)
  }

  // A well-framed block decodes to its own information length, or fails.
  ghost predicate KeepsLength(inner: InnerCode) {
    forall bits: nat, b: Bytes, nbits: nat ::
      inner.decodeBlock(bits, b, nbits).Success? && |b| >= MIN_CHUNK_BODY && nbits == CodedNbits(|b|) ==>
      2 * |inner.decodeBlock(bits, b, nbits).value| + 2 == |b|
  }

  // A clean block is inverted, given the encoder's bit count and enough scratch.
  ghost predicate InvertsAt(inner: InnerCode, c: Bytes, bits: nat) {
    c != [] && 8 * |c| <= bits <= MAX_SUPPORTED_INFO_BITS ==>
      inner.encodeBlock(c).Success? &&
      inner.decodeBlock(bits, inner.encodeBlock(c).value, 2 * (8 * |c| + 6)) == Success(c)
  }

  ghost predicate InvertsClean(inner: InnerCode) {
    forall c: Bytes, bits: nat :: InvertsAt(inner, c, bits)
  }

  ghost predicate Lawful(inner: InnerCode) {
    EncodesUnderCap(inner) && BuildsUnderCap(inner) && KeepsLength(inner) && InvertsClean(inner)
  }

  function MapDecodeError(e: BlockError): CryptoError {
    match e
    case LengthMismatch | InputTooLong => InvalidInput
    case AllocationFailed => ErrorCorrection
  }

  // ----- Encoding -----

  function EncodeChunk(inner: InnerCode, c: Bytes): (coded: Bytes)
    requires Lawful(inner) && 0 < |c| <= VITERBI_CHUNK
    ensures |coded| == 2 * |c| + 2
  {
    assert 8 * |c| <= MAX_SUPPORTED_INFO_BITS;
    inner.encodeBlock(c).value
  }

  function EncodeStream(inner: InnerCode, s: Bytes): Bytes
    requires Lawful(inner)
  {
    if s == [] then []
    else
      var n := Min(VITERBI_CHUNK, |s|);
      EncodeChunk(inner, s[..n]) + EncodeStream(inner, s[n..])
  }

  lemma EncodeStep(inner: InnerCode, s: Bytes)
    requires Lawful(inner) && s != []
    ensures var n := Min(VITERBI_CHUNK, |s|);
            && 0 < n <= |s|
            && EncodeStream(inner, s) == EncodeChunk(inner, s[..n]) + EncodeStream(inner, s[n..])
  {
  }

  // The encoder's failure branch is unreachable: no chunk exceeds the cap.
  method Encode(inner: InnerCode, s: Bytes) returns (out: Bytes)
    requires Lawful(inner)
    ensures out == EncodeStream(inner, s)
  {
    hide EncodeStream, EncodesUnderCap, KeepsLength, InvertsClean;
    out := [];
    var i := 0;
    assert s[0..] == s;
    while i < |s|
      invariant i <= |s| && out + EncodeStream(inner, s[i..]) == EncodeStream(inner, s)
    {
      var n := Min(VITERBI_CHUNK, |s| - i);
      var coded := EncodeOne(inner, s[i..i + n]);
      EncodeStep(inner, s[i..]);
      assert s[i..][..n] == s[i..i + n] && s[i..][n..] == s[i + n..];
      out := out + coded;
      i := i + n;
    }
    assert s[i..] == [];
    EncodeNothing(inner);
  }

  method EncodeOne(inner: InnerCode, chunk: Bytes) returns (coded: Bytes)
    requires Lawful(inner) && 0 < |chunk| <= VITERBI_CHUNK
    ensures coded == EncodeChunk(inner, chunk)
  {
    var r := inner.encodeBlock(chunk);
    assert 8 * |chunk| <= MAX_SUPPORTED_INFO_BITS;
    coded := r.value;
  }

  lemma EncodeNothing(inner: InnerCode)
    requires Lawful(inner)
    ensures EncodeStream(inner, []) == []
  {
  }

  // 2L bytes, and two more for each sub-block.
  lemma {:induction false} EncodedLength(inner: InnerCode, s: Bytes)
    requires Lawful(inner)
    ensures |EncodeStream(inner, s)| == Sum(ChunkLens(|s|)) == CodedLen(|s|)
  {
    hide EncodeStream, ChunkLens, CodedLen, Sum;
    BoundariesAgree(|s|);
    SumOfChunks(inner, s);
  }

  lemma {:induction false} SumOfChunks(inner: InnerCode, s: Bytes)
    requires Lawful(inner)
    ensures |EncodeStream(inner, s)| == Sum(ChunkLens(|s|))
    decreases |s|
  {
    if s == [] {
      EncodeNothing(inner);
    } else {
      hide EncodeStream, ChunkLens, Sum, Lawful;
      EncodeStep(inner, s);
      SumOfChunks(inner, s[Min(VITERBI_CHUNK, |s|)..]);
      ChunkLensHead(|s|);
    }
  }

  lemma ChunkLensHead(l: nat)
    requires l > 0
    ensures var n, lens := Min(VITERBI_CHUNK, l), ChunkLens(l);
            lens != [] && lens[0] == 2 * n + 2 && lens[1..] == ChunkLens(l - n)
            && Sum(lens) == lens[0] + Sum(lens[1..])
  {
  }

  // ----- Decoding -----

  function DecodeBodies(inner: InnerCode, bits: nat, y: Bytes, lens: seq<nat>): Res<Bytes>
    requires Bodies(lens) && Sum(lens) <= |y|
    decreases |lens|
  {
    if lens == [] then Success([])
    else
      match inner.decodeBlock(bits, y[..lens[0]], CodedNbits(lens[0]))
      case Failure(e) => Failure(MapDecodeError(e))
      case Success(d) => Prepend(d, DecodeBodies(inner, bits, y[lens[0]..], lens[1..]))
  }

  function Prepend(d: Bytes, r: Res<Bytes>): Res<Bytes> {
    if r.Success? then Success(d + r.value) else r
  }

  function BuildDecoder(inner: InnerCode, maxInfoBytes: nat): Res<nat> {
    if inner.builds(maxInfoBytes * 8) then Success(maxInfoBytes * 8) else Failure(ErrorCorrection)
  }

  function DecodeStream(inner: InnerCode, y: Bytes): Res<Bytes> {
    if y == [] then Success([])
    else
      match BodyLengths(|y|)
      case Failure(e) => Failure(e)
      case Success(lens) =>
        BodiesFit(|y|);
        match BuildDecoder(inner, MaxInfo(lens))
        case Failure(e) => Failure(e)
        case Success(bits) => DecodeBodies(inner, bits, y, lens)
  }

  method Decode(inner: InnerCode, y: Bytes) returns (r: Res<Bytes>)
    ensures r == DecodeStream(inner, y)
  {
    if y == [] {
      return Success([]);
    }
    var bodies := BodyLengths(|y|);
    if bodies.Failure? {
      return Failure(bodies.error);
    }
    var lens := bodies.value;
    BodiesFit(|y|);
    var decoder := BuildDecoder(inner, MaxInfo(lens));
    if decoder.Failure? {
      return Failure(decoder.error);
    }
    r := DecodeLoop(inner, decoder.value, y, lens);
  }

  method DecodeLoop(inner: InnerCode, bits: nat, y: Bytes, lens: seq<nat>) returns (r: Res<Bytes>)
    requires Bodies(lens) && Sum(lens) == |y|
    ensures r == DecodeBodies(inner, bits, y, lens)
  {
    var out: Bytes := [];
    var offset, i := 0, 0;
    ghost var goal := DecodeBodies(inner, bits, y, lens);
    assert y[0..] == y && lens[0..] == lens;
    if goal.Success? {
      assert [] + goal.value == goal.value;
    }
    while i < |lens|
      invariant i <= |lens| && offset <= |y| && Sum(lens[i..]) == |y| - offset
      invariant Prepend(out, DecodeBodies(inner, bits, y[offset..], lens[i..])) == goal
    {
      var n := lens[i];
      assert lens[i..][0] == n && lens[i..][1..] == lens[i + 1..];
      assert y[offset..][..n] == y[offset..offset + n] && y[offset..][n..] == y[offset + n..];
      var decoded := inner.decodeBlock(bits, y[offset..offset + n], CodedNbits(n));
      if decoded.Failure? {
        return Failure(MapDecodeError(decoded.error));
      }
      PrependTwice(out, decoded.value, DecodeBodies(inner, bits, y[offset + n..], lens[i + 1..]));
      out := out + decoded.value;
      offset := offset + n;
      i := i + 1;
    }
    assert lens[i..] == [] && out + [] == out;
    return Success(out);
  }

  lemma PrependTwice(a: Bytes, b: Bytes, r: Res<Bytes>)
    ensures Prepend(a, Prepend(b, r)) == Prepend(a + b, r)
  {
    if r.Success? {
      assert a + (b + r.value) == a + b + r.value;
    }
  }

  // The decoded length is the one the framing promises, for any received bytes.
  lemma {:induction false} BodiesDecodeToLength(inner: InnerCode, bits: nat, y: Bytes, lens: seq<nat>)
    requires KeepsLength(inner) && Bodies(lens) && Sum(lens) <= |y|
    requires DecodeBodies(inner, bits, y, lens).Success?
    ensures |DecodeBodies(inner, bits, y, lens).value| == InfoSum(lens)
    decreases |lens|
  {
    if lens != [] {
      BodiesDecodeToLength(inner, bits, y[lens[0]..], lens[1..]);
    }
  }

  // What decode returns has exactly the length that rs_len_from_body derives.
  lemma DecodedLength(inner: InnerCode, y: Bytes)
    requires KeepsLength(inner) && DecodeStream(inner, y).Success?
    ensures RsLenFromBody(|y|) == Success(|DecodeStream(inner, y).value|)
  {
    if y != [] {
      BodiesFit(|y|);
      var lens := BodyLengths(|y|).value;
      BodiesDecodeToLength(inner, BuildDecoder(inner, MaxInfo(lens)).value, y, lens);
    } else {
      assert BodyLengths(0).value == [];
    }
  }

  lemma DecodeStep(inner: InnerCode, bits: nat, y: Bytes, lens: seq<nat>, d: Bytes)
    requires Bodies(lens) && lens != [] && Sum(lens) <= |y|
    requires inner.decodeBlock(bits, y[..lens[0]], CodedNbits(lens[0])) == Success(d)
    ensures Sum(lens[1..]) <= |y[lens[0]..]|
    ensures DecodeBodies(inner, bits, y, lens) == Prepend(d, DecodeBodies(inner, bits, y[lens[0]..], lens[1..]))
  {
  }

  ghost predicate DecodesClean(inner: InnerCode, bits: nat, s: Bytes)
    requires Lawful(inner)
  {
    var y, lens := EncodeStream(inner, s), ChunkLens(|s|);
    Sum(lens) <= |y| && DecodeBodies(inner, bits, y, lens) == Success(s)
  }

  lemma CleanStep(inner: InnerCode, bits: nat, s: Bytes, n: nat)
    requires Lawful(inner) && s != [] && n == Min(VITERBI_CHUNK, |s|)
    requires 8 * n <= bits <= MAX_SUPPORTED_INFO_BITS
    requires DecodesClean(inner, bits, s[n..])
    ensures DecodesClean(inner, bits, s)
  {
    hide EncodeStream, ChunkLens, Sum, Lawful, DecodeBodies;
    SumOfChunks(inner, s);
    ChunkLensHead(|s|);
    CleanHead(inner, bits, s, n);
    DecodeStep(inner, bits, EncodeStream(inner, s), ChunkLens(|s|), s[..n]);
    assert s[..n] + s[n..] == s;
  }

  // The first chunk is the longest, so scratch for it is scratch for all.
  lemma {:induction false} CleanBodies(inner: InnerCode, bits: nat, s: Bytes)
    requires Lawful(inner) && 8 * Min(VITERBI_CHUNK, |s|) <= bits <= MAX_SUPPORTED_INFO_BITS
    ensures DecodesClean(inner, bits, s)
    decreases |s|
  {
    if s == [] {
      EncodeNothing(inner);
    } else {
      var n := Min(VITERBI_CHUNK, |s|);
      CleanBodies(inner, bits, s[n..]);
      CleanStep(inner, bits, s, n);
    }
  }

  lemma CleanHead(inner: InnerCode, bits: nat, s: Bytes, n: nat)
    requires Lawful(inner) && s != [] && n == Min(VITERBI_CHUNK, |s|)
    requires 8 * n <= bits <= MAX_SUPPORTED_INFO_BITS
    ensures var y, len := EncodeStream(inner, s), 2 * n + 2;
            && len <= |y| && y[len..] == EncodeStream(inner, s[n..])
            && inner.decodeBlock(bits, y[..len], CodedNbits(len)) == Success(s[..n])
  {
    hide EncodeStream, KeepsLength, EncodesUnderCap;
    EncodeStep(inner, s);
    var c := s[..n];
    assert EncodeStream(inner, s)[..2 * n + 2] == EncodeChunk(inner, c);
    assert InvertsAt(inner, c, bits);
  }

  // Every stream comes back, whatever its length.
  lemma {:induction false} CodecRoundTrip(inner: InnerCode, s: Bytes)
    requires Lawful(inner)
    ensures DecodeStream(inner, EncodeStream(inner, s)) == Success(s)
  {
    EncodedLength(inner, s);
    BoundariesAgree(|s|);
    if s != [] {
      var lens := ChunkLens(|s|);
      BodiesFit(CodedLen(|s|));
      ChunkLensHead(|s|);
      assert InfoLen(lens[0]) == Min(VITERBI_CHUNK, |s|);
      CleanBodies(inner, MaxInfo(lens) * 8, s);
    }
  }

  // ----- Containment of damage -----

  function BodyStart(lens: seq<nat>, i: nat): nat
    requires i <= |lens|
    decreases i
  {
    if i == 0 then 0 else lens[0] + BodyStart(lens[1..], i - 1)
  }

  function InfoStart(lens: seq<nat>, i: nat): nat
    requires Bodies(lens) && i <= |lens|
    decreases i
  {
    if i == 0 then 0 else InfoLen(lens[0]) + InfoStart(lens[1..], i - 1)
  }

  lemma {:induction false} BodiesContain(inner: InnerCode, bits: nat, y: Bytes, z: Bytes, lens: seq<nat>, i: nat)
    requires KeepsLength(inner) && Bodies(lens) && Sum(lens) <= |y| && i < |lens|
    requires DamagedWithin(y, z, BodyStart(lens, i), BodyStart(lens, i) + lens[i])
    requires DecodeBodies(inner, bits, y, lens).Success? && DecodeBodies(inner, bits, z, lens).Success?
    ensures DamagedWithin(DecodeBodies(inner, bits, y, lens).value, DecodeBodies(inner, bits, z, lens).value,
                          InfoStart(lens, i), InfoStart(lens, i) + InfoLen(lens[i]))
    decreases i
  {
    var n := lens[0];
    BodiesDecodeToLength(inner, bits, y, lens);
    BodiesDecodeToLength(inner, bits, z, lens);
    if i == 0 {
      assert y[n..] == z[n..];
    } else {
      assert y[..n] == z[..n];
      BodiesContain(inner, bits, y[n..], z[n..], lens[1..], i - 1);
    }
  }

  lemma {:induction false} StartsOfBodies(q: nat, r: nat, i: nat)
    requires r < VITERBI_CHUNK && i < |FullThenRest(q, r)|
    ensures var lens := FullThenRest(q, r);
            BodyStart(lens, i) == i * FULL_CHUNK_BODY && InfoStart(lens, i) == i * VITERBI_CHUNK
    decreases i
  {
    if i > 0 {
      PeelOne(q, r);
      StartsOfBodies(q - 1, r, i - 1);
    }
  }

  // Corruption confined to coded sub-block i, of any two received bodies that
  // decode, changes decoded bytes of that sub-block only.
  lemma DamageContained(inner: InnerCode, y: Bytes, z: Bytes, i: nat)
    requires KeepsLength(inner) && i * FULL_CHUNK_BODY < |y|
    requires DamagedWithin(y, z, i * FULL_CHUNK_BODY, (i + 1) * FULL_CHUNK_BODY)
    requires DecodeStream(inner, y).Success? && DecodeStream(inner, z).Success?
    ensures DamagedWithin(DecodeStream(inner, y).value, DecodeStream(inner, z).value,
                          i * VITERBI_CHUNK, (i + 1) * VITERBI_CHUNK)
  {
    BodiesFit(|y|);
    var lens := BodyLengths(|y|).value;
    var q, r := FramedAs(|y|, i);
    StartsOfBodies(q, r, i);
    BodiesContain(inner, MaxInfo(lens) * 8, y, z, lens, i);
  }

  lemma FramedAs(n: nat, i: nat) returns (q: nat, r: nat)
    requires BodyLengths(n).Success? && i * FULL_CHUNK_BODY < n
    ensures r < VITERBI_CHUNK && BodyLengths(n).value == FullThenRest(q, r) && i < |FullThenRest(q, r)|
    ensures FullThenRest(q, r)[i] == FULL_CHUNK_BODY || n <= i * FULL_CHUNK_BODY + FullThenRest(q, r)[i]
  {
    var l := AcceptedIsImage(n);
    q, r := l / VITERBI_CHUNK, l % VITERBI_CHUNK;
    CodedLenSplit(l);
    ReceiverBodies(q, r);
  }

  // ----- What decoding returns, sub-block by sub-block -----

  // Coded sub-block i of a received body.
  function SubBlock(y: Bytes, i: nat): (b: Bytes)
    requires i * FULL_CHUNK_BODY < |y|
    ensures b != []
  {
    y[i * FULL_CHUNK_BODY..Min((i + 1) * FULL_CHUNK_BODY, |y|)]
  }

  // Scratch for the first sub-block, which no other exceeds.
  function ScratchBits(y: Bytes): nat
    requires |y| >= MIN_CHUNK_BODY
  {
    8 * (Min(FULL_CHUNK_BODY, |y|) / 2 - 1)
  }

  function BlockAnswer(inner: InnerCode, y: Bytes, i: nat): Result<Bytes, BlockError>
    requires |y| >= MIN_CHUNK_BODY && i * FULL_CHUNK_BODY < |y|
  {
    inner.decodeBlock(ScratchBits(y), SubBlock(y, i), 8 * |SubBlock(y, i)| - 4)
  }

  ghost predicate Answered(inner: InnerCode, y: Bytes, i: nat)
    requires |y| >= MIN_CHUNK_BODY
  {
    i * FULL_CHUNK_BODY < |y| ==> BlockAnswer(inner, y, i).Success?
  }

  ghost predicate FirstRefused(inner: InnerCode, y: Bytes, k: nat)
    requires |y| >= MIN_CHUNK_BODY
  {
    !Answered(inner, y, k) && forall i: nat :: i < k ==> Answered(inner, y, i)
  }

  // The answers for the sub-blocks from i on, one after the other.
  ghost function Joined(inner: InnerCode, y: Bytes, i: nat): Bytes
    requires |y| >= MIN_CHUNK_BODY && forall k: nat :: i <= k ==> Answered(inner, y, k)
    decreases |y| - i * FULL_CHUNK_BODY
  {
    if i * FULL_CHUNK_BODY >= |y| then []
    else
      assert Answered(inner, y, i);
      BlockAnswer(inner, y, i).value + Joined(inner, y, i + 1)
  }

  // Decoding what is left from sub-block i on, q full bodies and a rest of r.
  ghost predicate LeftFrom(y: Bytes, q: nat, r: nat, i: nat) {
    r < VITERBI_CHUNK && |y| >= MIN_CHUNK_BODY && i * FULL_CHUNK_BODY + q * FULL_CHUNK_BODY + TailBody(r) == |y|
  }

  function DecodeFrom(inner: InnerCode, y: Bytes, q: nat, r: nat, i: nat): Res<Bytes>
    requires LeftFrom(y, q, r, i)
  {
    BodyTotals(q, r);
    DecodeBodies(inner, ScratchBits(y), y[i * FULL_CHUNK_BODY..], FullThenRest(q, r))
  }

  lemma DecodeNothing(inner: InnerCode, y: Bytes, i: nat)
    requires LeftFrom(y, 0, 0, i)
    ensures DecodeFrom(inner, y, 0, 0, i) == Success([]) && i * FULL_CHUNK_BODY == |y|
  {
  }

  lemma DecodeFull(inner: InnerCode, y: Bytes, q: nat, r: nat, i: nat)
    requires q > 0 && LeftFrom(y, q, r, i)
    ensures i * FULL_CHUNK_BODY < |y| && LeftFrom(y, q - 1, r, i + 1)
    ensures DecodeFrom(inner, y, q, r, i)
            == match BlockAnswer(inner, y, i)
               case Failure(e) => Failure(MapDecodeError(e))
               case Success(d) => Prepend(d, DecodeFrom(inner, y, q - 1, r, i + 1))
  {
    BodyTotals(q, r);
    PeelOne(q, r);
    var rest := y[i * FULL_CHUNK_BODY..];
    assert rest[..FULL_CHUNK_BODY] == SubBlock(y, i);
    assert rest[FULL_CHUNK_BODY..] == y[(i + 1) * FULL_CHUNK_BODY..];
  }

  lemma DecodeRest(inner: InnerCode, y: Bytes, r: nat, i: nat)
    requires r > 0 && LeftFrom(y, 0, r, i)
    ensures i * FULL_CHUNK_BODY < |y| <= (i + 1) * FULL_CHUNK_BODY
    ensures DecodeFrom(inner, y, 0, r, i)
            == match BlockAnswer(inner, y, i)
               case Failure(e) => Failure(MapDecodeError(e))
               case Success(d) => Success(d)
  {
    BodyTotals(0, r);
    var rest, n := y[i * FULL_CHUNK_BODY..], TailBody(r);
    assert rest[..n] == SubBlock(y, i);
    assert FullThenRest(0, r) == [n] && FullThenRest(0, r)[1..] == [];
    assert rest[n..] == [] && DecodeBodies(inner, ScratchBits(y), [], []) == Success([]);
    if BlockAnswer(inner, y, i).Success? {
      assert BlockAnswer(inner, y, i).value + [] == BlockAnswer(inner, y, i).value;
    }
  }

  lemma {:induction false} AnswersJoin(inner: InnerCode, y: Bytes, q: nat, r: nat, i: nat)
    requires LeftFrom(y, q, r, i) && forall k: nat :: i <= k ==> Answered(inner, y, k)
    ensures DecodeFrom(inner, y, q, r, i) == Success(Joined(inner, y, i))
    decreases q
  {
    hide DecodeFrom, BlockAnswer;
    assert Answered(inner, y, i);
    if q > 0 {
      DecodeFull(inner, y, q, r, i);
      AnswersJoin(inner, y, q - 1, r, i + 1);
    } else if r > 0 {
      DecodeRest(inner, y, r, i);
      assert Joined(inner, y, i + 1) == [];
      assert BlockAnswer(inner, y, i).value + [] == BlockAnswer(inner, y, i).value;
    } else {
      DecodeNothing(inner, y, i);
    }
  }

  lemma {:induction false} RefusalStops(inner: InnerCode, y: Bytes, q: nat, r: nat, i: nat, k: nat)
    requires LeftFrom(y, q, r, i) && i <= k && FirstRefused(inner, y, k)
    ensures DecodeFrom(inner, y, q, r, i) == Failure(MapDecodeError(BlockAnswer(inner, y, k).error))
    decreases q
  {
    hide DecodeFrom, BlockAnswer;
    assert i < k ==> Answered(inner, y, i);
    if q > 0 {
      DecodeFull(inner, y, q, r, i);
      if i < k {
        RefusalStops(inner, y, q - 1, r, i + 1, k);
      }
    } else if r > 0 {
      DecodeRest(inner, y, r, i);
    } else {
      DecodeNothing(inner, y, i);
    }
  }

  lemma {:induction false} StreamFromStart(inner: InnerCode, y: Bytes, l: nat)
    requires l > 0 && |y| == CodedLen(l)
    ensures LeftFrom(y, l / VITERBI_CHUNK, l % VITERBI_CHUNK, 0)
    ensures DecodeStream(inner, y)
            == if inner.builds(ScratchBits(y)) then DecodeFrom(inner, y, l / VITERBI_CHUNK, l % VITERBI_CHUNK, 0)
               else Failure(ErrorCorrection)
  {
    var q, r := l / VITERBI_CHUNK, l % VITERBI_CHUNK;
    CodedLenSplit(l);
    ReceiverBodies(q, r);
    BodyTotals(q, r);
    ScratchOfFraming(q, r, y);
    assert y[0..] == y;
  }

  lemma ScratchOfFraming(q: nat, r: nat, y: Bytes)
    requires LeftFrom(y, q, r, 0)
    ensures MaxInfo(FullThenRest(q, r)) * 8 == ScratchBits(y)
  {
    var lens := FullThenRest(q, r);
    if q > 0 {
      PeelOne(q, r);
      assert InfoLen(lens[0]) == VITERBI_CHUNK;
    } else {
      assert lens[1..] == [];
    }
  }

  // The decoder on any body at all. A length that no stream encodes to is an
  // input error; else, once the scratch is built, the result is the sub-blocks'
  // answers in order, or the mapped error of the first one refused.
  lemma {:induction false} DecodeExact(inner: InnerCode, y: Bytes)
    ensures DecodeStream(inner, []) == Success([])
    ensures (forall l: nat :: |y| != CodedLen(l)) ==> DecodeStream(inner, y) == Failure(InvalidInput)
    ensures forall l: nat :: l > 0 && |y| == CodedLen(l) ==> |y| >= MIN_CHUNK_BODY && DecodesSubBlocks(inner, y)
  {
    FramingExact(|y|, 0);
    forall l: nat | l > 0 && |y| == CodedLen(l) ensures |y| >= MIN_CHUNK_BODY && DecodesSubBlocks(inner, y) {
      StreamFromStart(inner, y, l);
      SubBlocksDecode(inner, y, l / VITERBI_CHUNK, l % VITERBI_CHUNK);
    }
  }

  ghost predicate DecodesSubBlocks(inner: InnerCode, y: Bytes)
    requires |y| >= MIN_CHUNK_BODY
  {
    var r := DecodeStream(inner, y);
    if !inner.builds(ScratchBits(y)) then r == Failure(ErrorCorrection)
    else
      && ((forall k: nat :: Answered(inner, y, k)) ==> r == Success(Joined(inner, y, 0)))
      && forall k: nat :: FirstRefused(inner, y, k) ==>
           r == Failure(if BlockAnswer(inner, y, k).error == AllocationFailed then ErrorCorrection else InvalidInput)
  }

  lemma {:induction false} SubBlocksDecode(inner: InnerCode, y: Bytes, q: nat, r: nat)
    requires LeftFrom(y, q, r, 0)
    requires DecodeStream(inner, y)
             == if inner.builds(ScratchBits(y)) then DecodeFrom(inner, y, q, r, 0) else Failure(ErrorCorrection)
    ensures DecodesSubBlocks(inner, y)
  {
    hide DecodeStream, DecodeFrom, ScratchBits, BlockAnswer;
    if forall k: nat :: Answered(inner, y, k) {
      AnswersJoin(inner, y, q, r, 0);
    }
    forall k: nat | FirstRefused(inner, y, k)
      ensures DecodeFrom(inner, y, q, r, 0) == Failure(MapDecodeError(BlockAnswer(inner, y, k).error))
    {
      RefusalStops(inner, y, q, r, 0, k);
    }
  }

  // On the sending side sub-block i is the block code's answer for chunk i.
  ghost predicate SendsChunk(inner: InnerCode, s: Bytes, y: Bytes, i: nat)
    requires i * VITERBI_CHUNK < |s|
  {
    && i * FULL_CHUNK_BODY < |y|
    && inner.encodeBlock(s[i * VITERBI_CHUNK..Min((i + 1) * VITERBI_CHUNK, |s|)]) == Success(SubBlock(y, i))
  }

  lemma {:induction false} EncodeExact(inner: InnerCode, s: Bytes, i: nat)
    requires Lawful(inner) && i * VITERBI_CHUNK < |s|
    ensures SendsChunk(inner, s, EncodeStream(inner, s), i)
    decreases i
  {
    hide EncodeStream, Lawful, SubBlock, SendsChunk;
    if i == 0 {
      FirstChunk(inner, s);
    } else {
      EncodeExact(inner, s[VITERBI_CHUNK..], i - 1);
      FirstChunk(inner, s);
      LaterChunk(inner, s, EncodeStream(inner, s[VITERBI_CHUNK..]), EncodeStream(inner, s), i);
    }
  }

  lemma FirstChunk(inner: InnerCode, s: Bytes)
    requires Lawful(inner) && s != []
    ensures SendsChunk(inner, s, EncodeStream(inner, s), 0)
    ensures |s| > VITERBI_CHUNK ==>
              |EncodeStream(inner, s)| >= FULL_CHUNK_BODY
              && EncodeStream(inner, s)[FULL_CHUNK_BODY..] == EncodeStream(inner, s[VITERBI_CHUNK..])
  {
    hide EncodeStream, InvertsClean, KeepsLength;
    var n := Min(VITERBI_CHUNK, |s|);
    EncodeStep(inner, s);
    if |s| == n {
      EncodeNothing(inner);
      assert s[n..] == [];
    }
    var y, coded := EncodeStream(inner, s), EncodeChunk(inner, s[..n]);
    assert |coded| == Min(FULL_CHUNK_BODY, |y|) && y[..|coded|] == coded;
    assert SubBlock(y, 0) == y[..|coded|];
    assert 8 * n <= MAX_SUPPORTED_INFO_BITS;
  }

  lemma LaterChunk(inner: InnerCode, s: Bytes, rest: Bytes, y: Bytes, i: nat)
    requires i > 0 && i * VITERBI_CHUNK < |s| && |y| >= FULL_CHUNK_BODY && y[FULL_CHUNK_BODY..] == rest
    requires SendsChunk(inner, s[VITERBI_CHUNK..], rest, i - 1)
    ensures SendsChunk(inner, s, y, i)
  {
    SliceOfTail(y, FULL_CHUNK_BODY, (i - 1) * FULL_CHUNK_BODY, Min(i * FULL_CHUNK_BODY, |rest|));
    SliceOfTail(s, VITERBI_CHUNK, (i - 1) * VITERBI_CHUNK, Min(i * VITERBI_CHUNK, |s| - VITERBI_CHUNK));
  }

  lemma SliceOfTail(s: Bytes, cut: nat, from: nat, to: nat)
    requires from <= to && cut + to <= |s|
    ensures s[cut..][from..to] == s[cut + from..cut + to]
  {
  }
}
