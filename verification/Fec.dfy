// The error-correction strategies behind one interface, and the concatenated
// stack (src/fec/mod.rs, src/fec/rs.rs, src/fec/viterbi.rs, src/vault.rs).

module Fec {
  import opened Format
  import opened ReedSolomon
  import opened ViterbiFraming
  import opened ViterbiCodec
  import opened Interleaver

  // A strategy object: the three operations of the ErrorCorrection interface.
  // `encode` is defined where the call returns.
  datatype Strategy = Strategy(
    encode: Bytes --> Bytes,
    decode: (Bytes, nat) -> Res<Bytes>,
    validate: Bytes -> Res<nat>)

  // The shared structural gate on a chunked body (src/blob.rs, validate_pre_fec).
  function ValidatePreFec(received: Bytes): Res<nat> {
    if |received| > MAX_BLOB_LEN then Failure(InvalidInput)
    else
      match RsLenFromBody(|received|)
      case Failure(e) => Failure(e)
      case Success(l) => if l == 0 || l % RS_BLOCK != 0 then Failure(InvalidInput) else Success(l)
  }

  // The gate accepts nothing longer than the longest payload's stream.
  lemma {:induction false} GateReach(received: Bytes)
    requires ValidatePreFec(received).Success?
    ensures InReach(ValidatePreFec(received).value) && ValidatePreFec(received).value > 0
  {
    var l := ValidatePreFec(received).value;
    FramingExact(|received|, l);
    assert CodedLen(RsLen(PROTECTED_MAX)) == MAX_BLOB_LEN;
    CodedLenReflects(l, RsLen(PROTECTED_MAX));
  }

  lemma CodedLenReflects(l: nat, m: nat)
    requires CodedLen(l) <= CodedLen(m)
    ensures l <= m
  {
  }

  // The gate on any received body: it accepts exactly the lengths at which a
  // stream of one or more whole codewords is sent, and derives that stream's length.
  lemma {:induction false} GateExact(received: Bytes, l: nat)
    ensures ValidatePreFec(received) == Success(l) <==>
              |received| == CodedLen(l) <= MAX_BLOB_LEN && l > 0 && l % RS_BLOCK == 0
    ensures ValidatePreFec(received).Failure? ==> ValidatePreFec(received).error == InvalidInput
  {
    FramingExact(|received|, l);
  }

  // Lengths of Reed-Solomon streams that a vault can send, or its gate let in.
  predicate InReach(n: nat) {
    n <= RsLen(PROTECTED_MAX) && n % RS_BLOCK == 0
  }

  // ----- The concatenated stack -----

  datatype Stack = Stack(rs: RsCode, il: Interleaver, inner: InnerCode) {
    ghost predicate Valid() {
      LawfulRs(rs) && il.Valid() && Lawful(inner)
    }

    // The calls a vault can make end: always so without the keyed layer.
    ghost predicate ServesReach()
      requires il.Valid()
    {
      forall n: nat :: InReach(n) ==> il.Serves(n)
    }

    // What the gate makes of the result, if it accepts it, is the length of the
    // Reed-Solomon stream.
    function Encode(data: Bytes): (blob: Bytes)
      requires il.Valid() && Lawful(inner) && il.Serves(|rs.encode(data)|)
      ensures |blob| == CodedLen(|rs.encode(data)|)
      ensures ValidatePreFec(blob).Success? ==> ValidatePreFec(blob).value == |rs.encode(data)|
    {
      hide EncodeStream, Lawful, Interleaver.Serves;
      var stream := il.Interleave(rs.encode(data));
      EncodedLength(inner, stream);
      FramingExact(CodedLen(|stream|), |stream|);
      EncodeStream(inner, stream)
    }

    // Whatever is received, and whatever the two codecs return.
    function Decode(encoded: Bytes, preLen: nat): Res<Bytes>
      requires il.Valid() && (ValidatePreFec(encoded).Success? ==> il.Serves(ValidatePreFec(encoded).value))
    {
      match ValidatePreFec(encoded)
      case Failure(e) => Failure(e)
      case Success(l) =>
        match DecodeStream(inner, encoded)
        case Failure(e) => Failure(e)
        case Success(stream) =>
          if |stream| != l then Failure(InvalidInput)
          else RsDecode(rs, il.Deinterleave(stream), preLen)
    }
  }

  function StackValidate(received: Bytes): Res<nat> {
    match ValidatePreFec(received)
    case Failure(e) => Failure(e)
    case Success(l) => Success(l / RS_BLOCK * RS_DATA)
  }

  lemma StackLength(f: Stack, data: Bytes)
    requires f.Valid() && f.il.Serves(RsLen(|data|))
    ensures |f.rs.encode(data)| == RsLen(|data|)
    ensures |f.Encode(data)| == CodedLen(RsLen(|data|))
  {
    EncodedLength(f.inner, f.il.Interleave(f.rs.encode(data)));
  }

  // The post-Viterbi length check cannot fail on any received bytes.
  lemma CrossCheckNeverFires(f: Stack, received: Bytes)
    requires KeepsLength(f.inner)
    requires ValidatePreFec(received).Success? && DecodeStream(f.inner, received).Success?
    ensures |DecodeStream(f.inner, received).value| == ValidatePreFec(received).value
  {
    DecodedLength(f.inner, received);
  }

  // On the stack's own output the gate accepts exactly the non-empty data that
  // fits the cap, and derives the length the Reed-Solomon code produced.
  lemma {:induction false} GateOnOwnOutput(f: Stack, data: Bytes)
    requires f.Valid() && f.il.Serves(RsLen(|data|))
    ensures ValidatePreFec(f.Encode(data))
            == if data != [] && |f.Encode(data)| <= MAX_BLOB_LEN
               then Success(RsLen(|data|)) else Failure(InvalidInput)
  {
    StackLength(f, data);
    FramingExact(|f.Encode(data)|, RsLen(|data|));
    RsLenBlocks(|data|);
  }

  // Anything the inner decoder turns into the interleaved stream, up to symbol
  // errors within the outer code's capacity, decodes to the padded data.
  lemma {:induction false} StackRecovers(f: Stack, data: Bytes, received: Bytes, stream: Bytes, preLen: nat)
    requires f.Valid() && f.il.Serves(RsLen(|data|)) && preLen <= CeilDiv(|data|, RS_DATA) * RS_DATA
    requires ValidatePreFec(received) == Success(RsLen(|data|))
    requires DecodeStream(f.inner, received) == Success(stream) && |stream| == RsLen(|data|)
    requires WithinCapacity(f.rs.encode(data), f.il.Deinterleave(stream), RS_BLOCK, RS_CORRECTS)
    ensures f.Decode(received, preLen) == Success(Padded(data, RS_DATA)[..preLen])
  {
    hide DecodeStream, ValidatePreFec, Interleaver.Serves, Interleaver.Deinterleave, Lawful, RsLen, WithinCapacity;
    RsRecovers(f.rs, data, f.il.Deinterleave(stream), preLen);
  }

  lemma {:induction false} StackCleanDecode(f: Stack, data: Bytes, preLen: nat)
    requires f.Valid() && f.il.Serves(RsLen(|data|)) && preLen <= CeilDiv(|data|, RS_DATA) * RS_DATA
    requires data != [] && |f.Encode(data)| <= MAX_BLOB_LEN
    ensures f.Decode(f.Encode(data), preLen) == Success(Padded(data, RS_DATA)[..preLen])
  {
    hide EncodeStream, DecodeStream, Interleaver.Interleave, Interleaver.Deinterleave, ValidatePreFec;
    var stream := f.rs.encode(data);
    GateOnOwnOutput(f, data);
    CodecRoundTrip(f.inner, f.il.Interleave(stream));
    InterleaverRoundTrip(f.il, stream);
    CleanIsWithinCapacity(stream, RS_BLOCK, RS_CORRECTS);
    StackRecovers(f, data, f.Encode(data), f.il.Interleave(stream), preLen);
  }

  // Decoding inverts encoding exactly when the data is non-empty and its
  // encoding fits the cap; otherwise the gate rejects the blob.
  lemma {:induction false} StackRoundTripExact(f: Stack, data: Bytes)
    requires f.Valid() && f.il.Serves(RsLen(|data|))
    ensures f.Decode(f.Encode(data), |data|)
            == if data != [] && |f.Encode(data)| <= MAX_BLOB_LEN then Success(data) else Failure(InvalidInput)
  {
    GateOnOwnOutput(f, data);
    if data != [] && |f.Encode(data)| <= MAX_BLOB_LEN {
      StackCleanDecode(f, data, |data|);
    }
  }

  // The length the gate hands to decode is that of the zero-padded data, which
  // is what decode then recovers.
  lemma StackGatesAgree(f: Stack, data: Bytes)
    requires f.Valid() && f.il.Serves(RsLen(|data|)) && data != [] && |f.Encode(data)| <= MAX_BLOB_LEN
    ensures StackValidate(f.Encode(data)) == Success(CeilDiv(|data|, RS_DATA) * RS_DATA)
    ensures f.Decode(f.Encode(data), CeilDiv(|data|, RS_DATA) * RS_DATA) == Success(Padded(data, RS_DATA))
  {
    GateOnOwnOutput(f, data);
    RsLenBlocks(|data|);
    StackCleanDecode(f, data, CeilDiv(|data|, RS_DATA) * RS_DATA);
    assert Padded(data, RS_DATA)[..CeilDiv(|data|, RS_DATA) * RS_DATA] == Padded(data, RS_DATA);
  }

  // The length for decode is that of the data in the accepted codewords.
  lemma {:induction false} StackGateExact(received: Bytes, m: nat)
    ensures StackValidate(received) == Success(m) <==>
              exists k: nat :: k >= 1 && |received| == CodedLen(k * RS_BLOCK) <= MAX_BLOB_LEN && m == k * RS_DATA
    ensures StackValidate(received).Failure? ==> StackValidate(received).error == InvalidInput
  {
    hide ValidatePreFec, CodedLen;
    GateExact(received, 0);
    if ValidatePreFec(received).Success? {
      var l := ValidatePreFec(received).value;
      GateExact(received, l);
      assert l == l / RS_BLOCK * RS_BLOCK;
    }
    forall k: nat | k >= 1 && |received| == CodedLen(k * RS_BLOCK) <= MAX_BLOB_LEN
      ensures StackValidate(received) == Success(k * RS_DATA)
    {
      GateExact(received, k * RS_BLOCK);
      DivModUnique(k * RS_BLOCK, RS_BLOCK, k, 0);
    }
  }

  // The gate accepts, and the inner decoder delivers a stream.
  predicate Delivers(f: Stack, received: Bytes) {
    ValidatePreFec(received).Success? && DecodeStream(f.inner, received).Success?
  }

  ghost predicate ServesGated(f: Stack, received: Bytes) {
    f.il.Valid() && (ValidatePreFec(received).Success? ==> f.il.Serves(ValidatePreFec(received).value))
  }

  // The outer code's answer on that stream, de-interleaved.
  function OuterAnswer(f: Stack, received: Bytes, preLen: nat): Result<Bytes, RsError>
    requires ServesGated(f, received) && KeepsLength(f.inner) && Delivers(f, received)
  {
    CrossCheckNeverFires(f, received);
    f.rs.decode(f.il.Deinterleave(DecodeStream(f.inner, received).value), preLen)
  }

  // Decoding any received bytes: what comes out is the outer code's answer and
  // nothing else, and what it cannot correct is reported as such.
  lemma {:induction false} StackDecodeExact(f: Stack, received: Bytes, preLen: nat)
    requires ServesGated(f, received) && KeepsLength(f.inner)
    ensures forall d: Bytes :: f.Decode(received, preLen) == Success(d) <==>
              Delivers(f, received) && OuterAnswer(f, received, preLen) == Success(d)
    ensures f.Decode(received, preLen) == Failure(ErrorCorrection) <==>
              || (Delivers(f, received) && OuterAnswer(f, received, preLen) == Failure(Uncorrectable))
              || (ValidatePreFec(received).Success? && DecodeStream(f.inner, received) == Failure(ErrorCorrection))
    ensures f.Decode(received, preLen).Failure? ==>
              f.Decode(received, preLen).error == ErrorCorrection || f.Decode(received, preLen).error == InvalidInput
  {
    hide DecodeStream, Interleaver.Deinterleave, Interleaver.Serves, Interleaver.Valid, KeepsLength, ValidatePreFec;
    GateExact(received, 0);
    if Delivers(f, received) {
      CrossCheckNeverFires(f, received);
      RsDecodeExact(f.rs, f.il.Deinterleave(DecodeStream(f.inner, received).value), preLen);
      GateExact(received, ValidatePreFec(received).value);
    } else if DecodeStream(f.inner, received).Failure? {
      StreamErrors(f.inner, received);
    }
  }

  // ----- The stack keyed from a session master -----

  // The constructor with the keyed layer; the two stateless codecs, the stream
  // cipher and the seed expansion are parameters.
  function StackFromMaster(rs: RsCode, inner: InnerCode, chacha: StreamCipher, expandSeed: Bytes -> Bytes,
                           master: Bytes, depth: nat): Res<Stack>
  {
    if |master| != KEY_LEN then Failure(InvalidInput)
    else
      match NewBlockInterleaver(depth)
      case Failure(e) => Failure(e)
      case Success(block) =>
        match NewCsprngLayer(expandSeed(master), chacha)
        case Failure(e) => Failure(e)
        case Success(csprng) => Success(Stack(rs, BlockThenCsprng(block, csprng), inner))
  }

  ghost predicate RoundTripsAt(f: Stack, data: Bytes)
    requires f.Valid() && f.il.Serves(RsLen(|data|))
  {
    f.Decode(f.Encode(data), |data|)
    == if data != [] && |f.Encode(data)| <= MAX_BLOB_LEN then Success(data) else Failure(InvalidInput)
  }

  ghost predicate RoundTripsWhereServed(f: Stack)
    requires f.Valid()
  {
    forall data: Bytes :: f.il.Serves(RsLen(|data|)) ==> RoundTripsAt(f, data)
  }

  lemma {:induction false} RoundTripsServed(f: Stack)
    requires f.Valid()
    ensures RoundTripsWhereServed(f)
  {
    forall data: Bytes | f.il.Serves(RsLen(|data|)) ensures RoundTripsAt(f, data) {
      StackRoundTripExact(f, data);
    }
  }

  // A stack is built exactly for a full-length master and a depth of 1 to 16. It
  // is the given codecs around the block order of that depth and, over it, the
  // keyed layer whose seed is expanded from the master.
  lemma {:induction false} SharedMasterRoundTrip(
    rs: RsCode, inner: InnerCode, chacha: StreamCipher, expandSeed: Bytes -> Bytes, master: Bytes, depth: nat)
    requires LawfulRs(rs) && Lawful(inner)
    ensures var r := StackFromMaster(rs, inner, chacha, expandSeed, master, depth);
            && (r.Success? <==> |master| == 32 && 1 <= depth <= 16 && |expandSeed(master)| == 32)
            && (r.Failure? ==> r.error == InvalidInput)
            && (r.Success? ==> r.value.Valid() && RoundTripsWhereServed(r.value))
            && (r.Success? ==> KeyedWith(r.value, rs, inner, chacha, expandSeed(master), depth))
  {
    var r := StackFromMaster(rs, inner, chacha, expandSeed, master, depth);
    hide RoundTripsWhereServed;
    if r.Success? {
      RoundTripsServed(r.value);
    }
  }

  ghost predicate KeyedWith(f: Stack, rs: RsCode, inner: InnerCode, chacha: StreamCipher, seed: Bytes, depth: nat) {
    && f.rs == rs && f.inner == inner
    && f.il == BlockThenCsprng(BlockInterleaver(depth), CsprngLayer(seed, chacha))
  }

  // What any stack sends: the outer code's stream, interleaved, goes chunk by chunk
  // through the inner code.
  lemma {:induction false} StackSends(f: Stack, data: Bytes)
    requires f.Valid() && f.il.Serves(RsLen(|data|))
    ensures var stream := f.il.Interleave(f.rs.encode(data));
            && |stream| == RsLen(|data|) && |StackEncode(f, data)| == CodedLen(RsLen(|data|))
            && forall i: nat :: i * VITERBI_CHUNK < |stream| ==> SendsChunk(f.inner, stream, StackEncode(f, data), i)
  {
    hide Interleaver.Interleave, Interleaver.Serves, SendsChunk, EncodeStream, LawfulRs, Lawful, CodedLen, RsLen;
    StackLength(f, data);
    EncodesAs(f, data);
    var stream := f.il.Interleave(f.rs.encode(data));
    forall i: nat | i * VITERBI_CHUNK < |stream| ensures SendsChunk(f.inner, stream, f.Encode(data), i) {
      EncodeExact(f.inner, stream, i);
    }
  }

  // The stream of a stack built from a master: the block order of its depth first,
  // the layer keyed with the expanded seed over its whole output.
  lemma {:induction false} MasterStreamOrder(
    rs: RsCode, inner: InnerCode, chacha: StreamCipher, expandSeed: Bytes -> Bytes, master: Bytes, depth: nat,
    s: Bytes)
    requires StackFromMaster(rs, inner, chacha, expandSeed, master, depth).Success?
    requires CsprngLayer(expandSeed(master), chacha).Serves(depth * RS_BLOCK, |s|)
    ensures var il := StackFromMaster(rs, inner, chacha, expandSeed, master, depth).value.il;
            var block, layer := BlockInterleaver(depth), CsprngLayer(expandSeed(master), chacha);
            && il.Valid() && block.Valid() && il.Serves(|s|) && layer.Runs(depth * RS_BLOCK, |s|)
            && il.Interleave(s) == layer.Shuffled(Block(block).Interleave(s), depth * RS_BLOCK)
  {
    hide CsprngLayer.Serves, CsprngLayer.Shuffled;
  }

  // Two stacks built apart, from masters that expand to one seed, at one depth:
  // each decodes what the other encodes.
  lemma {:induction false} PeersAgree(
    rs: RsCode, inner: InnerCode, chacha: StreamCipher, expandSeed: Bytes -> Bytes, depth: nat,
    sender: Bytes, receiver: Bytes, data: Bytes)
    requires LawfulRs(rs) && Lawful(inner)
    requires |expandSeed(sender)| == KEY_LEN && expandSeed(sender) == expandSeed(receiver)
    requires |sender| == |receiver| == KEY_LEN && 1 <= depth <= RS_INTERLEAVE_MAX
    requires CsprngLayer(expandSeed(sender), chacha).Serves(depth * RS_BLOCK, RsLen(|data|))
    ensures var f, g := StackFromMaster(rs, inner, chacha, expandSeed, sender, depth),
                        StackFromMaster(rs, inner, chacha, expandSeed, receiver, depth);
            && f.Success? && g.Success? && f.value.Valid() && g.value.Valid()
            && g.value.il.Serves(RsLen(|data|)) && f.value.il.Serves(RsLen(|data|))
            && ServesGated(g.value, StackEncode(f.value, data))
            && g.value.Decode(StackEncode(f.value, data), |data|)
               == if data != [] && |StackEncode(f.value, data)| <= MAX_BLOB_LEN
                  then Success(data) else Failure(InvalidInput)
  {
    hide StackEncode, CsprngLayer.Serves, LawfulRs, Lawful, ValidatePreFec;
    SharedMasterRoundTrip(rs, inner, chacha, expandSeed, sender, depth);
    SharedMasterRoundTrip(rs, inner, chacha, expandSeed, receiver, depth);
    var f := StackFromMaster(rs, inner, chacha, expandSeed, sender, depth).value;
    EncodesAs(f, data);
    assert RoundTripsAt(f, data);
  }

  lemma EncodesAs(f: Stack, data: Bytes)
    requires f.Valid() && f.il.Serves(RsLen(|data|))
    ensures StackEncode(f, data) == f.Encode(data)
    ensures ServesGated(f, f.Encode(data))
  {
    StackLength(f, data);
  }

  // ----- The other three strategies -----

  function NoFecDecode(encoded: Bytes, preLen: nat): Res<Bytes> {
    Success(encoded[..Min(preLen, |encoded|)])
  }

  function NoFecValidate(received: Bytes): Res<nat> {
    if |received| > MAX_BLOB_LEN then Failure(InvalidInput) else Success(|received|)
  }

  function ViterbiOnlyDecode(inner: InnerCode, encoded: Bytes, preLen: nat): Res<Bytes> {
    match DecodeStream(inner, encoded)
    case Failure(e) => Failure(e)
    case Success(recovered) => Success(recovered[..Min(preLen, |recovered|)])
  }

  function ViterbiOnlyValidate(received: Bytes): Res<nat> {
    if |received| > MAX_BLOB_LEN then Failure(InvalidInput) else RsLenFromBody(|received|)
  }

  function NoFec(): Strategy {
    Strategy(d => d, NoFecDecode, NoFecValidate)
  }

  function RsOnly(rs: RsCode): Strategy {
    Strategy(rs.encode, (y: Bytes, p: nat) => RsDecode(rs, y, p), RsValidate)
  }

  function ViterbiOnly(inner: InnerCode): Strategy
    requires Lawful(inner)
  {
    Strategy(d => EncodeStream(inner, d), (y: Bytes, p: nat) => ViterbiOnlyDecode(inner, y, p), ViterbiOnlyValidate)
  }

  function Concatenated(f: Stack): Strategy
    requires f.Valid() && f.ServesReach()
  {
    hide Interleaver.Serves, Stack.ServesReach, Stack.Valid, StackEncode, StackDecode;
    Strategy(
      (d: Bytes) requires f.il.Serves(RsLen(|d|)) => StackEncode(f, d),
      (y: Bytes, p: nat) => StackDecode(f, y, p),
      StackValidate)
  }

  function StackEncode(f: Stack, data: Bytes): (blob: Bytes)
    requires f.Valid() && f.il.Serves(RsLen(|data|))
    ensures |blob| == CodedLen(RsLen(|data|))
  {
    hide Interleaver.Serves, Lawful;
    assert |f.rs.encode(data)| == RsLen(|data|);
    f.Encode(data)
  }

  // At the lengths its gate lets in; at all others the gate's refusal.
  function StackDecode(f: Stack, received: Bytes, preLen: nat): Res<Bytes>
    requires f.Valid() && f.ServesReach()
  {
    hide Interleaver.Serves, ValidatePreFec, Lawful, LawfulRs;
    if ValidatePreFec(received).Success? then
      GateReach(received);
      f.Decode(received, preLen)
    else f.Decode(received, preLen)
  }

  // What each strategy sends.
  lemma StrategiesSend(rs: RsCode, inner: InnerCode, f: Stack, d: Bytes)
    requires Lawful(inner) && f.Valid() && f.ServesReach() && f.il.Serves(RsLen(|d|))
    ensures NoFec().encode(d) == d && RsOnly(rs).encode(d) == rs.encode(d)
    ensures ViterbiOnly(inner).encode(d) == EncodeStream(inner, d)
    ensures Concatenated(f).encode.requires(d) && Concatenated(f).encode(d) == StackEncode(f, d)
  {
    hide Interleaver.Serves, Stack.ServesReach, StackEncode, EncodeStream, Stack.Decode;
  }

  // The other gates, on any received body.
  lemma {:induction false} PlainGatesExact(received: Bytes, n: nat)
    ensures NoFecValidate(received) == Success(n) <==> n == |received| <= MAX_BLOB_LEN
    ensures ViterbiOnlyValidate(received) == Success(n) <==> |received| == CodedLen(n) <= MAX_BLOB_LEN
    ensures NoFecValidate(received).Failure? ==> NoFecValidate(received).error == InvalidInput
    ensures ViterbiOnlyValidate(received).Failure? ==> ViterbiOnlyValidate(received).error == InvalidInput
  {
    FramingExact(|received|, n);
  }

  // Decoding any received bytes to any length: NoFec returns what came, and
  // Viterbi-only what its decoder delivers, both cut to the asked length.
  lemma {:induction false} PlainDecodesExact(inner: InnerCode, received: Bytes, preLen: nat, d: Bytes)
    ensures NoFecDecode(received, preLen) == Success(d) <==> d <= received && |d| == Min(preLen, |received|)
    ensures NoFecDecode(received, preLen).Success?
    ensures ViterbiOnlyDecode(inner, received, preLen) == Success(d) <==>
              && DecodeStream(inner, received).Success?
              && d <= DecodeStream(inner, received).value
              && |d| == Min(preLen, |DecodeStream(inner, received).value|)
    ensures DecodeStream(inner, received).Failure? ==>
              ViterbiOnlyDecode(inner, received, preLen) == Failure(DecodeStream(inner, received).error)
  {
    hide DecodeStream;
    PrefixByLength(d, received);
    if DecodeStream(inner, received).Success? {
      PrefixByLength(d, DecodeStream(inner, received).value);
    }
  }

  lemma PrefixByLength(d: Bytes, s: Bytes)
    ensures d <= s <==> |d| <= |s| && d == s[..|d|]
  {
  }

  // So each undoes its encoding at every length, not only the data's own.
  lemma {:induction false} PlainDecodesCut(inner: InnerCode, d: Bytes, preLen: nat)
    requires Lawful(inner)
    ensures NoFec().decode(d, preLen) == Success(d[..Min(preLen, |d|)])
    ensures ViterbiOnly(inner).decode(EncodeStream(inner, d), preLen) == Success(d[..Min(preLen, |d|)])
  {
    CodecRoundTrip(inner, d);
  }

  // ----- The strategy law -----

  // Encoding returns on whatever a vault may send.
  ghost predicate Ready(f: Strategy) {
    forall d: Bytes :: |d| <= PROTECTED_MAX ==> f.encode.requires(d)
  }

  type ReadyStrategy = f: Strategy | Ready(f) witness NoFec()

  // Gating, then decoding at the gate's length, yields the data followed by zero
  // padding: what the decrypt path does.
  ghost predicate Recovers(f: Strategy, d: Bytes)
    requires f.encode.requires(d)
  {
    var blob := f.encode(d);
    && f.validate(blob).Success?
    && var pre := f.validate(blob).value;
    && f.decode(blob, pre).Success?
    && var r := f.decode(blob, pre).value;
    && |d| <= |r| == pre
    && r[..|d|] == d
    && forall i :: |d| <= i < |r| ==> r[i] == 0
  }

  // Decoding at the data's own length undoes encoding.
  ghost predicate Inverts(f: Strategy, d: Bytes)
    requires f.encode.requires(d)
  {
    f.decode(f.encode(d), |d|) == Success(d)
  }

  // Nothing that may be sent is refused for its size.
  ghost predicate FitsCap(f: Strategy, d: Bytes)
    requires f.encode.requires(d)
  {
    |d| <= PROTECTED_MAX ==> |f.encode(d)| <= MAX_BLOB_LEN
  }

  ghost predicate LawAt(f: Strategy, d: Bytes)
    requires f.encode.requires(d)
  {
    FitsCap(f, d) && (d != [] && |f.encode(d)| <= MAX_BLOB_LEN ==> Recovers(f, d) && Inverts(f, d))
  }

  ghost predicate LawfulStrategy(f: Strategy) {
    Ready(f) && forall d: Bytes :: |d| <= PROTECTED_MAX ==> LawAt(f, d)
  }

  // The encoding of d is within the cap and, if `framed`, d is not empty.
  ghost predicate Admits(f: Strategy, framed: bool, d: Bytes)
    requires f.encode.requires(d)
  {
    (framed ==> d != []) && |f.encode(d)| <= MAX_BLOB_LEN
  }

  // Gating and decoding recovers exactly the admitted data. A framed strategy
  // needs a codeword to be there, so its gate refuses the empty blob.
  ghost predicate ExactAt(f: Strategy, framed: bool, d: Bytes) {
    f.encode.requires(d) && LawAt(f, d) && (Recovers(f, d) <==> Admits(f, framed, d))
  }

  lemma CodedLenMono(l: nat, l': nat)
    requires l <= l'
    ensures CodedLen(l) <= CodedLen(l')
  {
  }

  lemma RsLenMono(l: nat, l': nat)
    requires l <= l'
    ensures l <= RsLen(l) <= RsLen(l')
  {
  }

  // Every layer's output of an admissible payload is under the cap.
  lemma {:induction false} SizesFit(l: nat)
    requires l <= PROTECTED_MAX
    ensures l <= RsLen(l) <= CodedLen(RsLen(l)) <= MAX_BLOB_LEN
    ensures CodedLen(l) <= MAX_BLOB_LEN
  {
    RsLenMono(l, PROTECTED_MAX);
    CodedLenMono(RsLen(l), RsLen(PROTECTED_MAX));
    CodedLenMono(l, RsLen(l));
    assert CodedLen(RsLen(PROTECTED_MAX)) == MAX_BLOB_LEN;
  }

  // The cap is tight: the longest payload's blob has exactly that length.
  lemma {:induction false} CapIsAttained(f: Stack, data: Bytes)
    requires f.Valid() && f.il.Serves(RsLen(|data|)) && |data| == 10_485_793
    ensures |f.Encode(data)| == MAX_BLOB_LEN == 23_981_412
  {
    StackLength(f, data);
  }

  // Padded base64 of a blob under the cap is under the text cap.
  lemma TextFits(n: nat)
    requires n <= MAX_BLOB_LEN
    ensures 4 * CeilDiv(n, 3) <= 4 * CeilDiv(MAX_BLOB_LEN, 3) == MAX_B64_LEN - 4 == 31_975_216
  {
  }

  lemma NoFecLawful()
    ensures LawfulStrategy(NoFec())
    ensures forall d: Bytes :: ExactAt(NoFec(), false, d) && Inverts(NoFec(), d)
  {
    forall d: Bytes ensures ExactAt(NoFec(), false, d) && Inverts(NoFec(), d) {
      if |d| <= PROTECTED_MAX {
        SizesFit(|d|);
      }
      assert d[..|d|] == d;
    }
  }

  // Decoding undoes encoding on all data; only the gate refuses the empty blob.
  lemma {:induction false} RsOnlyLawful(rs: RsCode)
    requires LawfulRs(rs)
    ensures LawfulStrategy(RsOnly(rs))
    ensures forall d: Bytes :: ExactAt(RsOnly(rs), true, d) && Inverts(RsOnly(rs), d)
  {
    var f := RsOnly(rs);
    hide RsOnly, Recovers, Inverts, LawAt, Admits;
    forall d: Bytes ensures ExactAt(f, true, d) && Inverts(f, d) && LawAt(f, d) && f.encode.requires(d) {
      RsOnlyAt(rs, d);
    }
  }

  lemma RsOnlyAt(rs: RsCode, d: Bytes)
    requires LawfulRs(rs)
    ensures ExactAt(RsOnly(rs), true, d) && Inverts(RsOnly(rs), d)
  {
    var blob, p := rs.encode(d), CeilDiv(|d|, RS_DATA) * RS_DATA;
    assert |blob| == RsLen(|d|);
    if |d| <= PROTECTED_MAX {
      SizesFit(|d|);
    }
    RsLenBlocks(|d|);
    CleanIsWithinCapacity(blob, RS_BLOCK, RS_CORRECTS);
    RsRecovers(rs, d, blob, p);
    RsRecovers(rs, d, blob, |d|);
    assert Padded(d, RS_DATA)[..p] == Padded(d, RS_DATA);
  }

  lemma {:induction false} ViterbiOnlyLawful(inner: InnerCode)
    requires Lawful(inner)
    ensures LawfulStrategy(ViterbiOnly(inner))
    ensures forall d: Bytes :: ExactAt(ViterbiOnly(inner), false, d) && Inverts(ViterbiOnly(inner), d)
  {
    var f := ViterbiOnly(inner);
    hide ViterbiOnly, Recovers, Inverts, LawAt, Admits;
    forall d: Bytes ensures ExactAt(f, false, d) && Inverts(f, d) && LawAt(f, d) && f.encode.requires(d) {
      ViterbiOnlyAt(inner, d);
    }
  }

  lemma ViterbiOnlyAt(inner: InnerCode, d: Bytes)
    requires Lawful(inner)
    ensures ExactAt(ViterbiOnly(inner), false, d) && Inverts(ViterbiOnly(inner), d)
  {
    hide EncodeStream, DecodeStream, Lawful, CodedLen, RsLenFromBody, RsLen;
    EncodedLength(inner, d);
    FramingExact(CodedLen(|d|), |d|);
    CodecRoundTrip(inner, d);
    if |d| <= PROTECTED_MAX {
      SizesFit(|d|);
    }
    assert d[..|d|] == d;
  }

  // Here decode gates again, so it undoes encode exactly where the gate accepts.
  lemma {:induction false} ConcatenatedLawful(f: Stack)
    requires f.Valid() && f.ServesReach()
    ensures LawfulStrategy(Concatenated(f))
    ensures forall d: Bytes :: f.il.Serves(RsLen(|d|)) ==> ConcatenatedExactAt(f, d)
  {
    hide Concatenated, LawAt, ConcatenatedExactAt, RsLen, Interleaver.Serves;
    forall d: Bytes | f.il.Serves(RsLen(|d|)) ensures ConcatenatedExactAt(f, d) {
      ConcatenatedAt(f, d);
    }
    forall d: Bytes | |d| <= PROTECTED_MAX
      ensures Concatenated(f).encode.requires(d) && LawAt(Concatenated(f), d)
    {
      RsLenInReach(|d|);
      ConcatenatedAt(f, d);
    }
  }

  ghost predicate ConcatenatedExactAt(f: Stack, d: Bytes)
    requires f.Valid() && f.ServesReach()
  {
    && ExactAt(Concatenated(f), true, d)
    && (Inverts(Concatenated(f), d) <==> Admits(Concatenated(f), true, d))
  }

  lemma RsLenInReach(n: nat)
    ensures n <= PROTECTED_MAX ==> InReach(RsLen(n))
  {
    RsLenBlocks(n);
    if n <= PROTECTED_MAX {
      RsLenMono(n, PROTECTED_MAX);
    }
  }

  lemma ConcatenatedAt(f: Stack, d: Bytes)
    requires f.Valid() && f.ServesReach() && f.il.Serves(RsLen(|d|))
    ensures ConcatenatedExactAt(f, d)
    ensures Concatenated(f).encode.requires(d) && LawAt(Concatenated(f), d)
  {
    hide Interleaver.Serves, Stack.ServesReach, Stack.Decode, Lawful, LawfulRs, ValidatePreFec, RsLen, CodedLen;
    hide StackEncode, StackDecode;
    EncodeDecodeAt(f, d, |d|);
    StackLength(f, d);
    if |d| <= PROTECTED_MAX {
      SizesFit(|d|);
    }
    GateOnOwnOutput(f, d);
    StackRoundTripExact(f, d);
    if d != [] && |f.Encode(d)| <= MAX_BLOB_LEN {
      StackGatesAgree(f, d);
      EncodeDecodeAt(f, d, CeilDiv(|d|, RS_DATA) * RS_DATA);
    }
  }

  lemma EncodeDecodeAt(f: Stack, d: Bytes, preLen: nat)
    requires f.Valid() && f.ServesReach() && f.il.Serves(RsLen(|d|))
    ensures Concatenated(f).encode.requires(d)
    ensures Concatenated(f).encode(d) == f.Encode(d)
    ensures Concatenated(f).decode(f.Encode(d), preLen) == f.Decode(f.Encode(d), preLen)
    ensures Concatenated(f).validate(f.Encode(d)) == StackValidate(f.Encode(d))
  {
    hide Interleaver.Serves, Stack.ServesReach, Stack.Decode, ValidatePreFec;
  }

  lemma ConcatenatedGate(f: Stack, received: Bytes)
    requires f.Valid() && f.ServesReach()
    ensures Concatenated(f).validate(received) == StackValidate(received)
  {
    hide Interleaver.Serves, Stack.ServesReach;
  }

  // On a blob that the gate accepts the strategy's operations are the stack's.
  lemma ConcatenatedDecodes(f: Stack, received: Bytes, preLen: nat)
    requires f.Valid() && f.ServesReach() && ValidatePreFec(received).Success?
    ensures f.il.Serves(ValidatePreFec(received).value)
    ensures Concatenated(f).validate(received) == StackValidate(received)
    ensures Concatenated(f).decode(received, preLen) == f.Decode(received, preLen)
  {
    GateReach(received);
    hide Interleaver.Serves, Stack.Decode, ValidatePreFec;
  }

  // ----- Error classes -----

  // Gates report input errors only; decoders add error-correction failures, and
  // those only for input that is structurally sound.
  ghost predicate NamesErrors(f: Strategy, sound: Bytes -> bool) {
    && (forall y: Bytes :: f.validate(y).Failure? ==> f.validate(y).error == InvalidInput)
    && (forall y: Bytes, p: nat :: f.decode(y, p).Failure? ==>
          f.decode(y, p).error == InvalidInput || (f.decode(y, p).error == ErrorCorrection && sound(y)))
  }

  lemma {:induction false} PlainStrategiesNameErrors(rs: RsCode)
    ensures NamesErrors(NoFec(), _ => false)
    ensures NamesErrors(RsOnly(rs), y => |y| % RS_BLOCK == 0)
  {
  }

  lemma {:induction false} ViterbiOnlyNamesErrors(inner: InnerCode)
    requires Lawful(inner)
    ensures NamesErrors(ViterbiOnly(inner), y => RsLenFromBody(|y|).Success?)
  {
    hide DecodeStream, Lawful;
    forall y: Bytes | DecodeStream(inner, y).Failure?
      ensures DecodeStream(inner, y).error == InvalidInput
              || (DecodeStream(inner, y).error == ErrorCorrection && RsLenFromBody(|y|).Success?)
    {
      StreamErrors(inner, y);
    }
  }

  lemma {:induction false} ConcatenatedNamesErrors(f: Stack)
    requires f.Valid() && f.ServesReach()
    ensures NamesErrors(Concatenated(f), y => ValidatePreFec(y).Success?)
  {
    hide StackDecode, ValidatePreFec, Interleaver.Serves, Stack.ServesReach, Stack.Valid;
    StackGateErrors();
    forall y: Bytes, p: nat | StackDecode(f, y, p).Failure?
      ensures StackDecode(f, y, p).error == InvalidInput
              || (StackDecode(f, y, p).error == ErrorCorrection && ValidatePreFec(y).Success?)
    {
      StackErrors(f, y, p);
    }
  }

  lemma StackGateErrors()
    ensures forall y: Bytes :: StackValidate(y).Failure? ==> StackValidate(y).error == InvalidInput
  {
  }

  lemma {:induction false} StackErrors(f: Stack, y: Bytes, p: nat)
    requires f.Valid() && f.ServesReach() && StackDecode(f, y, p).Failure?
    ensures StackDecode(f, y, p).error == InvalidInput
            || (StackDecode(f, y, p).error == ErrorCorrection && ValidatePreFec(y).Success?)
  {
    hide DecodeStream, Interleaver.Deinterleave, Interleaver.Serves, Lawful, LawfulRs;
    if DecodeStream(f.inner, y).Failure? {
      StreamErrors(f.inner, y);
    }
  }

  lemma {:induction false} StreamErrors(inner: InnerCode, y: Bytes)
    requires DecodeStream(inner, y).Failure?
    ensures DecodeStream(inner, y).error == InvalidInput
            || (DecodeStream(inner, y).error == ErrorCorrection && RsLenFromBody(|y|).Success?)
  {
    if BodyLengths(|y|).Success? {
      BodiesFit(|y|);
      var lens := BodyLengths(|y|).value;
      if inner.builds(MaxInfo(lens) * 8) {
        BodyErrors(inner, MaxInfo(lens) * 8, y, lens);
      }
    }
  }

  lemma {:induction false} BodyErrors(inner: InnerCode, bits: nat, y: Bytes, lens: seq<nat>)
    requires Bodies(lens) && Sum(lens) <= |y| && DecodeBodies(inner, bits, y, lens).Failure?
    ensures DecodeBodies(inner, bits, y, lens).error == InvalidInput
            || DecodeBodies(inner, bits, y, lens).error == ErrorCorrection
    decreases |lens|
  {
    if inner.decodeBlock(bits, y[..lens[0]], CodedNbits(lens[0])).Success? {
      BodyErrors(inner, bits, y[lens[0]..], lens[1..]);
    }
  }
}
