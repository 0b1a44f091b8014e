// A noisy channel between the two ends of the vault: what the error correction
// can repair still opens (the promise at the head of src/fec/mod.rs). Damage is
// measured on the symbols that the inner decoder delivers.

module Delivery {
  import opened Format
  import opened ReedSolomon
  import opened Interleaver
  import opened Fec
  import opened EndToEnd
  import opened Blob
  import opened Vault
  import opened VaultRuns

  // What encode_blob protects: header and body.
  function Payload(n: nat, body: Bytes): (d: Bytes)
    ensures |d| == HEADER_LEN + |body|
    ensures |d| <= PROTECTED_MAX ==> InReach(RsLen(|d|))
  {
    RsLenInReach(HEADER_LEN + |body|);
    Header(BLOB_VERSION, n) + body
  }

  // A damaged blob within the outer code's reach parses to what was sent.
  lemma {:induction false} DamagedBlobParses(f: Stack, n: nat, body: Bytes, received: Bytes)
    requires f.Valid() && f.ServesReach()
    requires n <= MAX_PLAINTEXT_LEN && |body| == NONCE_LEN + n + TAG_LEN
    requires Correctable(f, Payload(n, body), received)
    ensures DecodeBlob(Concatenated(f), received) == Success(Opened(BLOB_VERSION, n, body))
  {
    hide Correctable, Stack.Valid, Stack.Decode, ValidatePreFec, Concatenated, Interleaver.Serves;
    var d := Payload(n, body);
    var padded, pre := Padded(d, RS_DATA), CeilDiv(|d|, RS_DATA) * RS_DATA;
    CorrectableDecodes(f, d, received, pre);
    ConcatenatedDecodes(f, received, pre);
    assert padded[..pre] == padded;
    assert d == padded[..|d|];
    RsLenBlocks(|d|);
    hide Padded;
    assert StackValidate(received) == Success(pre);
    ParseExact(padded, Opened(BLOB_VERSION, n, body));
  }

  // Its text opens, at the door it was made for, exactly as the clean one would.
  lemma {:induction false} DamagedTextOpens(
    w: World, v: Vault, f: Stack, log: Log, master: Bytes, pt: Bytes, purpose: byte, extra: Bytes, coins: Coins,
    received: Bytes)
    requires f.Valid() && f.ServesReach() && v.fec == Concatenated(f) && LawfulBase64(w.b64)
    requires |pt| <= MAX_PLAINTEXT_LEN && Answers(coins, |pt|)
    requires DistinctSeals(log) && SealFor(w, master, pt, purpose, extra, coins) in log
    requires Correctable(f, Payload(|pt|, coins.nonce + coins.ct), received) && |received| <= v.maxBlobLen
    ensures OpensOnlyFor(w, v, log, w.b64.encode(received), w.hkdf(master), purpose, extra, pt)
  {
    DamagedBlobParses(f, |pt|, coins.nonce + coins.ct, received);
    hide OpensOnlyFor, DistinctSeals, Concatenated, DecodeBlob, LawfulBase64, Stack.Valid, Interleaver.Serves, SealFor;
    ParsedTextOpens(w, v, log, master, pt, purpose, extra, coins, received);
  }

  // Both doors, from sealing to opening: the receiver gets the exact plaintext.
  lemma {:induction false} NoisyDoors(
    w: World, v: Vault, f: Stack, log: Log, key: Bytes, salt: Bytes, pt: Bytes, coins: Coins, received: Bytes)
    requires f.Valid() && f.ServesReach() && v.fec == Concatenated(f) && LawfulBase64(w.b64)
    requires |key| == KEY_LEN && |pt| <= MAX_PLAINTEXT_LEN && DistinctSeals(log) && LegalCoins(log, coins, |pt|)
    requires Correctable(f, Payload(|pt|, coins.nonce + coins.ct), received) && |received| <= v.maxBlobLen
    ensures DecryptData(w, v, EncryptData(w, v, log, key, pt, coins).1, key, w.b64.encode(received)) == Success(pt)
    ensures UnwrapKey(w, v, WrapKey(w, v, log, key, salt, pt, coins).1, key, salt, w.b64.encode(received))
            == Success(pt)
  {
    NoisyDoor(w, v, f, log, key, AAD_PURPOSE_DATA, [], pt, coins, received);
    NoisyDoor(w, v, f, log, key, AAD_PURPOSE_ENVELOPE, salt, pt, coins, received);
  }

  lemma {:induction false} NoisyDoor(
    w: World, v: Vault, f: Stack, log: Log, key: Bytes, purpose: byte, extra: Bytes, pt: Bytes, coins: Coins,
    received: Bytes)
    requires f.Valid() && f.ServesReach() && v.fec == Concatenated(f) && LawfulBase64(w.b64)
    requires |key| == KEY_LEN && |pt| <= MAX_PLAINTEXT_LEN && DistinctSeals(log) && LegalCoins(log, coins, |pt|)
    requires Correctable(f, Payload(|pt|, coins.nonce + coins.ct), received) && |received| <= v.maxBlobLen
    ensures DecryptBytesAad(w, v, EncryptBytesAad(w, v, log, key, pt, purpose, extra, coins).1, key,
                            w.b64.encode(received), purpose, extra) == Success(pt)
  {
    var s := SealFor(w, key, pt, purpose, extra, coins);
    LegalSealKeepsDistinct(log, s);
    assert (log + [s])[|log|] == s;
    DamagedTextOpens(w, v, f, log + [s], key, pt, purpose, extra, coins, received);
    assert OpensAsExpected(w, v, log + [s], w.b64.encode(received), w.hkdf(key), purpose, extra, pt,
                           key, purpose, extra);
  }

  // One survivable burst on the symbols of the payload's blob.
  ghost predicate SurvivableOn(f: Stack, n: nat, body: Bytes, received: Bytes, lo: nat, hi: nat)
    requires f.Valid() && f.il.Serves(RsLen(|Payload(n, body)|))
  {
    BurstOn(f, Payload(n, body), received, lo, hi) && Survivable(f.il, RsLen(|Payload(n, body)|), lo, hi)
  }

  // A survivable burst on the blob of any plaintext, under either interleaver, at
  // both doors.
  lemma {:induction false} BurstyDoors(
    w: World, v: Vault, f: Stack, log: Log, key: Bytes, salt: Bytes, pt: Bytes, coins: Coins,
    received: Bytes, lo: nat, hi: nat)
    requires f.Valid() && f.ServesReach() && v.fec == Concatenated(f) && LawfulBase64(w.b64)
    requires |key| == KEY_LEN && |pt| <= MAX_PLAINTEXT_LEN && DistinctSeals(log) && LegalCoins(log, coins, |pt|)
    requires |received| <= v.maxBlobLen
    requires SurvivableOn(f, |pt|, coins.nonce + coins.ct, received, lo, hi)
    ensures DecryptData(w, v, EncryptData(w, v, log, key, pt, coins).1, key, w.b64.encode(received)) == Success(pt)
    ensures UnwrapKey(w, v, WrapKey(w, v, log, key, salt, pt, coins).1, key, salt, w.b64.encode(received))
            == Success(pt)
  {
    BurstCorrectable(f, Payload(|pt|, coins.nonce + coins.ct), received, lo, hi);
    NoisyDoors(w, v, f, log, key, salt, pt, coins, received);
  }

  // In particular up to 16 symbols, for every plaintext, seed and position.
  lemma {:induction false} SixteenSymbolDoors(
    w: World, v: Vault, f: Stack, log: Log, key: Bytes, salt: Bytes, pt: Bytes, coins: Coins,
    received: Bytes, lo: nat, hi: nat)
    requires f.Valid() && f.ServesReach() && v.fec == Concatenated(f) && LawfulBase64(w.b64)
    requires |key| == KEY_LEN && |pt| <= MAX_PLAINTEXT_LEN && DistinctSeals(log) && LegalCoins(log, coins, |pt|)
    requires |received| <= v.maxBlobLen
    requires BurstOn(f, Payload(|pt|, coins.nonce + coins.ct), received, lo, hi) && hi <= lo + RS_CORRECTS
    ensures DecryptData(w, v, EncryptData(w, v, log, key, pt, coins).1, key, w.b64.encode(received)) == Success(pt)
    ensures UnwrapKey(w, v, WrapKey(w, v, log, key, salt, pt, coins).1, key, salt, w.b64.encode(received))
            == Success(pt)
  {
    var d := Payload(|pt|, coins.nonce + coins.ct);
    RsLenBlocks(|d|);
    SixteenSymbolsSurvive(f.il, RsLen(|d|), lo, hi);
    BurstyDoors(w, v, f, log, key, salt, pt, coins, received, lo, hi);
  }

  // Beyond the outer code's reach decryption fails loud: when the code reports a
  // blob as uncorrectable, so does the vault, at either door and for every key.
  lemma {:induction false} UncorrectableIsReported(
    w: World, v: Vault, f: Stack, log: Log, master: Bytes, text: string, purpose: byte, extra: Bytes, received: Bytes)
    requires f.Valid() && f.ServesReach() && v.fec == Concatenated(f)
    requires |master| == KEY_LEN && |text| <= MAX_B64_LEN && w.b64.decode(text) == Some(received)
    requires |received| <= v.maxBlobLen && ServesGated(f, received) && Delivers(f, received)
    requires OuterAnswer(f, received, StackValidate(received).value) == Failure(Uncorrectable)
    ensures DecodeBlob(Concatenated(f), received) == Failure(ErrorCorrection)
    ensures DecryptBytesAad(w, v, log, master, text, purpose, extra) == Failure(ErrorCorrection)
  {
    hide Stack.Decode, Concatenated, Interleaver.Serves, ValidatePreFec, OuterAnswer, LawfulRs;
    var pre := StackValidate(received).value;
    StackDecodeExact(f, received, pre);
    ConcatenatedDecodes(f, received, pre);
    DecodeBlobExact(Concatenated(f), received);
  }

  // The same for the RS-only strategy, whose gate and code read the blob itself.
  lemma {:induction false} RsOnlyReports(
    w: World, v: Vault, rs: RsCode, log: Log, master: Bytes, text: string, purpose: byte, extra: Bytes, received: Bytes)
    requires v.fec == RsOnly(rs)
    requires |master| == KEY_LEN && |text| <= MAX_B64_LEN && w.b64.decode(text) == Some(received)
    requires |received| <= v.maxBlobLen && RsValidate(received).Success?
    requires rs.decode(received, RsValidate(received).value) == Failure(Uncorrectable)
    ensures DecodeBlob(RsOnly(rs), received) == Failure(ErrorCorrection)
    ensures DecryptBytesAad(w, v, log, master, text, purpose, extra) == Failure(ErrorCorrection)
  {
    RsGateExact(received, RsValidate(received).value);
    RsDecodeExact(rs, received, RsValidate(received).value);
    DecodeBlobExact(RsOnly(rs), received);
  }

  // And what a blob opens to is the payload that the outer code answered.
  lemma {:induction false} OpensOnlyAnswers(f: Stack, received: Bytes, o: Opened)
    requires f.Valid() && f.ServesReach() && ServesGated(f, received)
    ensures DecodeBlob(Concatenated(f), received) == Success(o) <==>
              && Delivers(f, received)
              && OuterAnswer(f, received, StackValidate(received).value).Success?
              && Blob.Carries(OuterAnswer(f, received, StackValidate(received).value).value, o)
  {
    hide Stack.Decode, Concatenated, Interleaver.Serves, ValidatePreFec, OuterAnswer, LawfulRs, Blob.Carries;
    ConcatenatedGate(f, received);
    DecodeBlobExact(Concatenated(f), received);
    if ValidatePreFec(received).Success? {
      var pre := StackValidate(received).value;
      StackDecodeExact(f, received, pre);
      ConcatenatedDecodes(f, received, pre);
    }
  }

  // Over whole runs: the text of any call, damaged within reach, still opens at
  // the end of the run, for its own context and no other.
  lemma {:induction false} NoisyOutputsKeepOpening(w: World, ops: seq<Op>, i: nat, f: Stack, received: Bytes)
    requires LawfulBase64(w.b64) && LegalRun(w, ops) && i < |ops|
    requires f.Valid() && f.ServesReach() && ops[i].v.fec == Concatenated(f)
    requires Step(w, Run(w, ops[..i]), ops[i]).0.Success? && |received| <= ops[i].v.maxBlobLen
    requires Correctable(f, Payload(|SubjectOf(w, ops, i)|, ops[i].coins.nonce + ops[i].coins.ct), received)
    ensures OpensOnlyFor(w, ops[i].v, Run(w, ops), w.b64.encode(received),
                         w.hkdf(MasterOf(ops[i])), PurposeOf(ops[i]), SaltOf(ops[i]), SubjectOf(w, ops, i))
  {
    hide Run, Step, LegalRun, OpensOnlyFor, Correctable, Concatenated, Stack.Valid, Interleaver.Serves, DistinctSeals;
    hide LawfulBase64;
    var op, pt := ops[i], SubjectOf(w, ops, i);
    SealsStay(w, ops, i);
    DamagedTextOpens(w, op.v, f, Run(w, ops), MasterOf(op), pt, PurposeOf(op), SaltOf(op), op.coins, received);
  }
}
