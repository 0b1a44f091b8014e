// The outer code as a contract, and the wrapper around it (src/fec/rs.rs).

module ReedSolomon {
  import opened Format

  datatype RsError = Uncorrectable | InvalidLength

  // The external codec: cuts data into k-byte chunks, zero-pads the last one,
  // and expands each to an n-byte codeword; decoding truncates to a given length.
  datatype RsCode = RsCode(encode: Bytes -> Bytes, decode: (Bytes, nat) -> Result<Bytes, RsError>)

  function Padded(d: Bytes, k: nat): (p: Bytes)
    requires k > 0
    ensures |p| == CeilDiv(|d|, k) * k
    ensures p[..|d|] == d && forall i :: |d| <= i < |p| ==> p[i] == 0
  {
    d + seq(CeilDiv(|d|, k) * k - |d|, _ => 0)
  }

  // The symbol errors of codeword c, codewords being n bytes long.
  function ErrorsIn(a: Bytes, b: Bytes, n: nat, c: nat): set<nat>
    requires |a| == |b| && n > 0
  {
    set j: nat | j < |a| && j / n == c && a[j] != b[j]
  }

  ghost predicate WithinCapacity(sent: Bytes, got: Bytes, n: nat, t: nat)
    requires n > 0
  {
    |sent| == |got| && forall c: nat :: c < |sent| / n ==> |ErrorsIn(sent, got, n, c)| <= t
  }

  ghost predicate Expands(rs: RsCode, k: nat, n: nat)
    requires k > 0
  {
    forall d: Bytes :: |rs.encode(d)| == CeilDiv(|d|, k) * n
  }

  ghost predicate CorrectsAt(rs: RsCode, k: nat, n: nat, t: nat, d: Bytes, got: Bytes, preLen: nat)
    requires k > 0 && n > 0
  {
    WithinCapacity(rs.encode(d), got, n, t) && preLen <= CeilDiv(|d|, k) * k ==>
      rs.decode(got, preLen) == Success(Padded(d, k)[..preLen])
  }

  // A code with k data symbols in n that corrects t symbol errors per codeword.
  ghost predicate Corrects(rs: RsCode, k: nat, n: nat, t: nat)
    requires k > 0 && n > 0
  {
    Expands(rs, k, n) && forall d, got, preLen :: CorrectsAt(rs, k, n, t, d, got, preLen)
  }

  // RS(255,223) of CCSDS 131.0-B section 4.
  ghost predicate LawfulRs(rs: RsCode) {
    Corrects(rs, RS_DATA, RS_BLOCK, RS_CORRECTS)
  }

  function RsLen(dataLen: nat): nat {
    CeilDiv(dataLen, RS_DATA) * RS_BLOCK
  }

  function BlockCount(byteLen: nat): Option<nat> {
    if byteLen % RS_BLOCK == 0 then Some(byteLen / RS_BLOCK) else None
  }

  function RsDecode(rs: RsCode, encoded: Bytes, preLen: nat): Res<Bytes> {
    if BlockCount(|encoded|).None? then Failure(InvalidInput)
    else
      match rs.decode(encoded, preLen)
      case Success(d) => Success(d)
      case Failure(Uncorrectable) => Failure(ErrorCorrection)
      case Failure(InvalidLength) => Failure(InvalidInput)
  }

  function RsValidate(received: Bytes): Res<nat> {
    if |received| > MAX_BLOB_LEN then Failure(InvalidInput)
    else
      match BlockCount(|received|)
      case Some(blocks) => if blocks >= 1 then Success(blocks * RS_DATA) else Failure(InvalidInput)
      case None => Failure(InvalidInput)
  }

  lemma RsLenBlocks(dataLen: nat)
    ensures BlockCount(RsLen(dataLen)) == Some(CeilDiv(dataLen, RS_DATA))
  {
  }

  // Within capacity the wrapper returns the padded data, cut to preLen.
  lemma RsRecovers(rs: RsCode, d: Bytes, got: Bytes, preLen: nat)
    requires LawfulRs(rs) && WithinCapacity(rs.encode(d), got, RS_BLOCK, RS_CORRECTS)
    requires preLen <= CeilDiv(|d|, RS_DATA) * RS_DATA
    ensures RsDecode(rs, got, preLen) == Success(Padded(d, RS_DATA)[..preLen])
  {
    RsLenBlocks(|d|);
    assert CorrectsAt(rs, RS_DATA, RS_BLOCK, RS_CORRECTS, d, got, preLen);
  }

  lemma CleanIsWithinCapacity(sent: Bytes, n: nat, t: nat)
    requires n > 0
    ensures WithinCapacity(sent, sent, n, t)
  {
  }

  // The wrapper on any received bytes: it returns what the code returns and
  // nothing else, and each refusal under its own error.
  lemma RsDecodeExact(rs: RsCode, got: Bytes, preLen: nat)
    ensures forall d: Bytes :: RsDecode(rs, got, preLen) == Success(d) <==>
              |got| % RS_BLOCK == 0 && rs.decode(got, preLen) == Success(d)
    ensures RsDecode(rs, got, preLen) == Failure(ErrorCorrection) <==>
              |got| % RS_BLOCK == 0 && rs.decode(got, preLen) == Failure(Uncorrectable)
    ensures RsDecode(rs, got, preLen) == Failure(InvalidInput) <==>
              |got| % RS_BLOCK != 0 || rs.decode(got, preLen) == Failure(InvalidLength)
  {
  }

  // The RS-only gate accepts one or more whole codewords within the cap.
  lemma {:induction false} RsGateExact(received: Bytes, m: nat)
    ensures RsValidate(received) == Success(m) <==>
              exists k: nat :: k >= 1 && |received| == k * RS_BLOCK <= MAX_BLOB_LEN && m == k * RS_DATA
    ensures RsValidate(received).Failure? ==> RsValidate(received).error == InvalidInput
  {
    if RsValidate(received) == Success(m) {
      assert |received| == |received| / RS_BLOCK * RS_BLOCK && m == |received| / RS_BLOCK * RS_DATA;
    }
  }
}
