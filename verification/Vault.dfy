// The vault over an idealised AEAD (src/vault.rs): sealing appends to a log, and
// opening succeeds only on what the log holds.

module Vault {
  import opened Format
  import opened Fec
  import opened Blob

  const AAD_PURPOSE_DATA: byte := 1
  const AAD_PURPOSE_ENVELOPE: byte := 2

  // Strict base64, as a contract: section 4 of RFC 4648 for the length.
  datatype Base64 = Base64(encode: Bytes -> string, decode: string -> Option<Bytes>)

  ghost predicate LawfulBase64(b64: Base64) {
    forall b: Bytes :: b64.decode(b64.encode(b)) == Some(b) && |b64.encode(b)| == 4 * CeilDiv(|b|, 3)
  }

  // Fixed parts of every vault: AEAD sub-key expansion and the text codec.
  datatype World = World(hkdf: Bytes -> Bytes, b64: Base64)

  datatype Seal = Seal(key: Bytes, nonce: Bytes, aad: Bytes, pt: Bytes, ct: Bytes)

  type Log = seq<Seal>

  // A ciphertext is never handed out twice under one nonce.
  ghost predicate DistinctSeals(log: Log) {
    forall i, j :: 0 <= i < j < |log| ==> !(log[i].nonce == log[j].nonce && log[i].ct == log[j].ct)
  }

  function Matches(s: Seal, key: Bytes, nonce: Bytes, aad: Bytes, ct: Bytes): bool {
    s.key == key && s.nonce == nonce && s.aad == aad && s.ct == ct
  }

  function OpenSealed(log: Log, key: Bytes, nonce: Bytes, aad: Bytes, ct: Bytes): Res<Bytes> {
    if log == [] then Failure(Cipher)
    else
      var last := log[|log| - 1];
      if Matches(last, key, nonce, aad, ct) then Success(last.pt)
      else OpenSealed(log[..|log| - 1], key, nonce, aad, ct)
  }

  // What the random source and the cipher answer to one sealing.
  datatype Coins = Coins(nonce: Bytes, ct: Bytes)

  // The lengths that both fix. Coins of any others stand for a cipher that failed.
  predicate Answers(coins: Coins, ptLen: nat) {
    |coins.nonce| == NONCE_LEN && |coins.ct| == ptLen + TAG_LEN
  }

  ghost predicate LegalCoins(log: Log, coins: Coins, ptLen: nat) {
    && Answers(coins, ptLen)
    && forall i :: 0 <= i < |log| ==> !(log[i].nonce == coins.nonce && log[i].ct == coins.ct)
  }

  function BuildAad(purpose: byte, header: Bytes, extra: Bytes): Bytes {
    [purpose] + header + extra
  }

  datatype Vault = Vault(fec: ReadyStrategy, maxBlobLen: nat) {
    function WithMaxBlobLen(cap: nat): Vault {
      this.(maxBlobLen := Min(cap, MAX_BLOB_LEN))
    }
  }

  function NewVault(fec: ReadyStrategy): Vault {
    Vault(fec, MAX_BLOB_LEN)
  }

  function SealFor(w: World, master: Bytes, pt: Bytes, purpose: byte, extra: Bytes, coins: Coins): Seal {
    Seal(w.hkdf(master), coins.nonce, BuildAad(purpose, Header(BLOB_VERSION, |pt|), extra), pt, coins.ct)
  }

  function BlobFor(v: Vault, pt: Bytes, coins: Coins): Bytes
    requires |pt| <= MAX_PLAINTEXT_LEN && Answers(coins, |pt|)
  {
    EncodeBlob(v.fec, BLOB_VERSION, |pt|, coins.nonce + coins.ct)
  }

  function EncryptBytesAad(w: World, v: Vault, log: Log, master: Bytes, pt: Bytes,
                           purpose: byte, extra: Bytes, coins: Coins): (Res<string>, Log)
  {
    if |master| != KEY_LEN then (Failure(InvalidInput), log)
    else if |pt| > MAX_PLAINTEXT_LEN then (Failure(InvalidInput), log)
    else if !Answers(coins, |pt|) then (Failure(Cipher), log)
    else (Success(w.b64.encode(BlobFor(v, pt, coins))), log + [SealFor(w, master, pt, purpose, extra, coins)])
  }

  function DecryptBytesAad(w: World, v: Vault, log: Log, master: Bytes, text: string,
                           purpose: byte, extra: Bytes): Res<Bytes>
  {
    if |master| != KEY_LEN then Failure(InvalidInput)
    else if |text| > MAX_B64_LEN then Failure(InvalidInput)
    else
      match w.b64.decode(text)
      case None => Failure(Encoding)
      case Some(decoded) =>
        if |decoded| > v.maxBlobLen then Failure(InvalidInput)
        else
          match DecodeBlob(v.fec, decoded)
          case Failure(e) => Failure(e)
          case Success(o) =>
            var aad := BuildAad(purpose, Header(BLOB_VERSION, o.plaintextLen), extra);
            if |o.body| < NONCE_LEN then Failure(InvalidInput)
            else OpenSealed(log, w.hkdf(master), o.body[..NONCE_LEN], aad, o.body[NONCE_LEN..])
  }

  // ----- The public doors -----

  function EncryptData(w: World, v: Vault, log: Log, key: Bytes, pt: Bytes, coins: Coins): (Res<string>, Log) {
    EncryptBytesAad(w, v, log, key, pt, AAD_PURPOSE_DATA, [], coins)
  }

  function DecryptData(w: World, v: Vault, log: Log, key: Bytes, text: string): Res<Bytes> {
    DecryptBytesAad(w, v, log, key, text, AAD_PURPOSE_DATA, [])
  }

  function WrapKey(w: World, v: Vault, log: Log, kek: Bytes, salt: Bytes, dek: Bytes, coins: Coins): (Res<string>, Log)
  {
    EncryptBytesAad(w, v, log, kek, dek, AAD_PURPOSE_ENVELOPE, salt, coins)
  }

  function UnwrapKey(w: World, v: Vault, log: Log, kek: Bytes, salt: Bytes, text: string): Res<Bytes> {
    DecryptBytesAad(w, v, log, kek, text, AAD_PURPOSE_ENVELOPE, salt)
  }

  function Rewrap(w: World, v: Vault, log: Log, oldKek: Bytes, oldSalt: Bytes, newKek: Bytes, newSalt: Bytes,
                  text: string, coins: Coins): (Res<string>, Log)
  {
    match DecryptBytesAad(w, v, log, oldKek, text, AAD_PURPOSE_ENVELOPE, oldSalt)
    case Failure(e) => (Failure(e), log)
    case Success(dek) => EncryptBytesAad(w, v, log, newKek, dek, AAD_PURPOSE_ENVELOPE, newSalt, coins)
  }

  // ----- Lemmas on sealing and opening -----

  // Purpose, length and salt can all be read back from the bound data.
  lemma AadInjective(p: byte, n: nat, e: Bytes, p': byte, n': nat, e': Bytes)
    requires n <= MAX_PLAINTEXT_LEN && n' <= MAX_PLAINTEXT_LEN
    requires BuildAad(p, Header(BLOB_VERSION, n), e) == BuildAad(p', Header(BLOB_VERSION, n'), e')
    ensures p == p' && n == n' && e == e'
  {
    var a, a' := BuildAad(p, Header(BLOB_VERSION, n), e), BuildAad(p', Header(BLOB_VERSION, n'), e');
    HeaderRoundTrip(BLOB_VERSION, n);
    HeaderRoundTrip(BLOB_VERSION, n');
    assert Header(BLOB_VERSION, n) == a[1..1 + HEADER_LEN] == a'[1..1 + HEADER_LEN] == Header(BLOB_VERSION, n');
    assert e == a[1 + HEADER_LEN..] && e' == a'[1 + HEADER_LEN..];
    assert p == a[0] && p' == a'[0];
  }

  // The bound data lays out purpose, header and salt in that order.
  lemma AadLayout(purpose: byte, header: Bytes, extra: Bytes)
    requires |header| == HEADER_LEN
    ensures var aad := BuildAad(purpose, header, extra);
            && |aad| == 1 + HEADER_LEN + |extra|
            && aad[0] == purpose && aad[1..1 + HEADER_LEN] == header && aad[1 + HEADER_LEN..] == extra
            && BuildAad(purpose, header, []) <= aad
  {
    var aad := BuildAad(purpose, header, extra);
    assert BuildAad(purpose, header, []) == aad[..1 + HEADER_LEN];
  }

  // What an encryption seals and sends: the text is the encoding of the very header
  // that the seal binds, the nonce and the ciphertext.
  ghost predicate SealSent(w: World, v: Vault, master: Bytes, pt: Bytes, purpose: byte, extra: Bytes, s: Seal,
                           text: string)
  {
    && s.key == w.hkdf(master) && s.pt == pt && |s.nonce| == 12 && |s.ct| == |pt| + 16
    && |s.aad| == 6 + |extra| && s.aad[0] == purpose && s.aad[6..] == extra
    && s.aad[1..6] == [1, (|pt| % 256) as byte, (|pt| / 0x100 % 256) as byte, (|pt| / 0x1_0000 % 256) as byte,
                       (|pt| / 0x100_0000 % 256) as byte]
    && v.fec.encode.requires(s.aad[1..6] + s.nonce + s.ct)
    && text == w.b64.encode(v.fec.encode(s.aad[1..6] + s.nonce + s.ct))
  }

  lemma {:induction false} EncryptExact(w: World, v: Vault, log: Log, master: Bytes, pt: Bytes, purpose: byte,
                                        extra: Bytes, coins: Coins)
    ensures var (r, log') := EncryptBytesAad(w, v, log, master, pt, purpose, extra, coins);
            && (r == Failure(InvalidInput) <==> |master| != 32 || |pt| > 10_485_760)
            && (r == Failure(Cipher) <==> |master| == 32 && |pt| <= 10_485_760 && !Answers(coins, |pt|))
            && (r.Failure? ==> log' == log && (r.error == InvalidInput || r.error == Cipher))
            && (r.Success? ==>
                  && |log'| == |log| + 1 && log <= log'
                  && log'[|log|].nonce == coins.nonce && log'[|log|].ct == coins.ct
                  && SealSent(w, v, master, pt, purpose, extra, log'[|log|], r.value))
  {
    var (r, log') := EncryptBytesAad(w, v, log, master, pt, purpose, extra, coins);
    if r.Success? {
      var s := log'[|log|];
      HeaderLayout(BLOB_VERSION, |pt|);
      AadLayout(purpose, Header(BLOB_VERSION, |pt|), extra);
      assert s.aad[1..6] + s.nonce + s.ct == Header(BLOB_VERSION, |pt|) + (coins.nonce + coins.ct);
    }
  }

  // The data door seals under purpose 1 and no salt, the envelope door under
  // purpose 2 and its salt.
  lemma {:induction false} DoorsSeal(w: World, v: Vault, log: Log, key: Bytes, salt: Bytes, pt: Bytes, coins: Coins)
    ensures var (r, log') := EncryptData(w, v, log, key, pt, coins);
            r.Success? ==> |log'| == |log| + 1 && SealSent(w, v, key, pt, 1, [], log'[|log|], r.value)
    ensures var (r, log') := WrapKey(w, v, log, key, salt, pt, coins);
            r.Success? ==> |log'| == |log| + 1 && SealSent(w, v, key, pt, 2, salt, log'[|log|], r.value)
  {
    hide EncryptBytesAad, SealSent;
    EncryptExact(w, v, log, key, pt, AAD_PURPOSE_DATA, [], coins);
    EncryptExact(w, v, log, key, pt, AAD_PURPOSE_ENVELOPE, salt, coins);
  }

  lemma {:induction false} OpenFindsSeal(log: Log, key: Bytes, nonce: Bytes, aad: Bytes, ct: Bytes)
    ensures match OpenSealed(log, key, nonce, aad, ct)
            case Success(pt) => Seal(key, nonce, aad, pt, ct) in log
            case Failure(e) => e == Cipher && forall s :: s in log ==> !Matches(s, key, nonce, aad, ct)
  {
    if log != [] {
      var last, rest := log[|log| - 1], log[..|log| - 1];
      OpenFindsSeal(rest, key, nonce, aad, ct);
      assert log == rest + [last];
    }
  }

  // A plaintext that comes out was sealed under the caller's derived key, with
  // the caller's purpose and salt bound.
  lemma OpenedFromSeal(w: World, v: Vault, log: Log, master: Bytes, text: string, purpose: byte, extra: Bytes)
    returns (s: Seal, n: nat)
    requires DecryptBytesAad(w, v, log, master, text, purpose, extra).Success?
    ensures s in log && s.key == w.hkdf(master) && n <= MAX_PLAINTEXT_LEN
    ensures s.aad == BuildAad(purpose, Header(BLOB_VERSION, n), extra)
    ensures DecryptBytesAad(w, v, log, master, text, purpose, extra) == Success(s.pt)
  {
    var blob := w.b64.decode(text).value;
    AcceptedBodyLength(v.fec, blob);
    var o := DecodeBlob(v.fec, blob).value;
    n := o.plaintextLen;
    var aad := BuildAad(purpose, Header(BLOB_VERSION, n), extra);
    var nonce, ct := o.body[..NONCE_LEN], o.body[NONCE_LEN..];
    OpenFindsSeal(log, w.hkdf(master), nonce, aad, ct);
    s := Seal(w.hkdf(master), nonce, aad, DecryptBytesAad(w, v, log, master, text, purpose, extra).value, ct);
  }

  // With distinct ciphertexts, a seal opens under its own key and data, and its
  // nonce and ciphertext open under nothing else.
  lemma SealOpensExactly(log: Log, s: Seal, key: Bytes, aad: Bytes)
    requires DistinctSeals(log) && s in log
    ensures OpenSealed(log, key, s.nonce, aad, s.ct)
            == if key == s.key && aad == s.aad then Success(s.pt) else Failure(Cipher)
  {
    OpenFindsSeal(log, key, s.nonce, aad, s.ct);
    var i :| 0 <= i < |log| && log[i] == s;
    assert forall j :: 0 <= j < |log| && log[j].nonce == s.nonce && log[j].ct == s.ct ==> j == i;
  }

  lemma LegalSealKeepsDistinct(log: Log, s: Seal)
    requires DistinctSeals(log)
    requires forall i :: 0 <= i < |log| ==> !(log[i].nonce == s.nonce && log[i].ct == s.ct)
    ensures DistinctSeals(log + [s])
  {
  }

  // A blob made with legal coins parses back to them under a lawful strategy.
  lemma OwnBlobParses(w: World, v: Vault, log: Log, pt: Bytes, coins: Coins)
    requires LawfulStrategy(v.fec) && LawfulBase64(w.b64)
    requires |pt| <= MAX_PLAINTEXT_LEN && Answers(coins, |pt|)
    ensures var blob := BlobFor(v, pt, coins);
            && |blob| <= MAX_BLOB_LEN && |w.b64.encode(blob)| <= MAX_B64_LEN
            && w.b64.decode(w.b64.encode(blob)) == Some(blob)
            && DecodeBlob(v.fec, blob) == Success(Opened(BLOB_VERSION, |pt|, coins.nonce + coins.ct))
  {
    BlobRoundTrip(v.fec, |pt|, coins.nonce + coins.ct);
    TextFits(|BlobFor(v, pt, coins)|);
  }

  // A sealed text opens, later and elsewhere, exactly for its own context.
  ghost predicate OpensOnlyFor(w: World, v: Vault, log: Log, text: string, key: Bytes, purpose: byte, extra: Bytes,
                               pt: Bytes)
  {
    forall master, p, e :: OpensAsExpected(w, v, log, text, key, purpose, extra, pt, master, p, e)
  }

  ghost predicate OpensAsExpected(w: World, v: Vault, log: Log, text: string, key: Bytes, purpose: byte, extra: Bytes,
                                  pt: Bytes, master: Bytes, p: byte, e: Bytes)
  {
    DecryptBytesAad(w, v, log, master, text, p, e)
    == if |master| != KEY_LEN then Failure(InvalidInput)
       else if w.hkdf(master) == key && p == purpose && e == extra then Success(pt)
       else Failure(Cipher)
  }

  // Any blob that parses to the nonce and ciphertext of a logged seal opens so.
  lemma ParsedTextOpens(w: World, v: Vault, log: Log, master: Bytes, pt: Bytes, purpose: byte, extra: Bytes,
                        coins: Coins, blob: Bytes)
    requires LawfulBase64(w.b64) && |pt| <= MAX_PLAINTEXT_LEN
    requires Answers(coins, |pt|)
    requires DistinctSeals(log) && SealFor(w, master, pt, purpose, extra, coins) in log
    requires |blob| <= v.maxBlobLen && |blob| <= MAX_BLOB_LEN
    requires DecodeBlob(v.fec, blob) == Success(Opened(BLOB_VERSION, |pt|, coins.nonce + coins.ct))
    ensures OpensOnlyFor(w, v, log, w.b64.encode(blob), w.hkdf(master), purpose, extra, pt)
  {
    var text := w.b64.encode(blob);
    TextFits(|blob|);
    var s := SealFor(w, master, pt, purpose, extra, coins);
    var body := coins.nonce + coins.ct;
    assert body[..NONCE_LEN] == coins.nonce && body[NONCE_LEN..] == coins.ct;
    hide DecodeBlob, Header;
    forall m, p, e ensures OpensAsExpected(w, v, log, text, w.hkdf(master), purpose, extra, pt, m, p, e) {
      var aad := BuildAad(p, Header(BLOB_VERSION, |pt|), e);
      SealOpensExactly(log, s, w.hkdf(m), aad);
      if aad == s.aad {
        AadInjective(p, |pt|, e, purpose, |pt|, extra);
      }
    }
  }

  lemma SealedTextOpens(w: World, v: Vault, log: Log, master: Bytes, pt: Bytes, purpose: byte, extra: Bytes,
                        coins: Coins)
    requires LawfulStrategy(v.fec) && LawfulBase64(w.b64)
    requires |pt| <= MAX_PLAINTEXT_LEN
    requires Answers(coins, |pt|)
    requires DistinctSeals(log) && SealFor(w, master, pt, purpose, extra, coins) in log
    requires |BlobFor(v, pt, coins)| <= v.maxBlobLen
    ensures OpensOnlyFor(w, v, log, w.b64.encode(BlobFor(v, pt, coins)), w.hkdf(master), purpose, extra, pt)
  {
    OwnBlobParses(w, v, log, pt, coins);
    ParsedTextOpens(w, v, log, master, pt, purpose, extra, coins, BlobFor(v, pt, coins));
  }

  // Encrypting and then opening at once, at either door.
  lemma DoorRoundTrip(w: World, v: Vault, log: Log, master: Bytes, pt: Bytes, purpose: byte, extra: Bytes, coins: Coins)
    requires LawfulStrategy(v.fec) && LawfulBase64(w.b64) && DistinctSeals(log) && LegalCoins(log, coins, |pt|)
    ensures var (r, log') := EncryptBytesAad(w, v, log, master, pt, purpose, extra, coins);
            && DistinctSeals(log')
            && (r.Success? <==> |master| == KEY_LEN && |pt| <= MAX_PLAINTEXT_LEN)
            && (r.Failure? ==> r.error == InvalidInput && log' == log)
            && (r.Success? && |BlobFor(v, pt, coins)| <= v.maxBlobLen ==>
                  OpensOnlyFor(w, v, log', r.value, w.hkdf(master), purpose, extra, pt))
  {
    var s := SealFor(w, master, pt, purpose, extra, coins);
    LegalSealKeepsDistinct(log, s);
    if |master| == KEY_LEN && |pt| <= MAX_PLAINTEXT_LEN && |BlobFor(v, pt, coins)| <= v.maxBlobLen {
      assert (log + [s])[|log|] == s;
      SealedTextOpens(w, v, log + [s], master, pt, purpose, extra, coins);
    }
  }

  // Each error names the stage that failed: text, structure or channel, tag.
  lemma {:induction false} ErrorNamesStage(
    w: World, v: Vault, log: Log, master: Bytes, text: string, purpose: byte, extra: Bytes, sound: Bytes -> bool)
    requires NamesErrors(v.fec, sound) && DecryptBytesAad(w, v, log, master, text, purpose, extra).Failure?
    ensures var e := DecryptBytesAad(w, v, log, master, text, purpose, extra).error;
            var admitted := |master| == KEY_LEN && |text| <= MAX_B64_LEN;
            && e != KeyDerivation
            && (e == Encoding <==> admitted && w.b64.decode(text).None?)
            && (e == ErrorCorrection ==> admitted && w.b64.decode(text).Some? && sound(w.b64.decode(text).value))
            && (e == ErrorCorrection <==>
                  && admitted && w.b64.decode(text).Some? && |w.b64.decode(text).value| <= v.maxBlobLen
                  && DecodeBlob(v.fec, w.b64.decode(text).value) == Failure(ErrorCorrection))
            && (e == Cipher <==>
                  && admitted && w.b64.decode(text).Some? && |w.b64.decode(text).value| <= v.maxBlobLen
                  && DecodeBlob(v.fec, w.b64.decode(text).value).Success?)
  {
    if w.b64.decode(text).Some? {
      var blob := w.b64.decode(text).value;
      BlobErrors(v.fec, blob, sound);
      if DecodeBlob(v.fec, blob).Success? {
        AcceptedBodyLength(v.fec, blob);
        var o := DecodeBlob(v.fec, blob).value;
        OpenFindsSeal(log, w.hkdf(master), o.body[..NONCE_LEN],
                      BuildAad(purpose, Header(BLOB_VERSION, o.plaintextLen), extra), o.body[NONCE_LEN..]);
      }
    }
  }

  // ----- The accept cap -----

  // The cap set last counts, and no cap exceeds the format's own.
  lemma LastCapCounts(v: Vault, cap: nat, cap': nat)
    ensures v.WithMaxBlobLen(cap).WithMaxBlobLen(cap') == v.WithMaxBlobLen(cap')
    ensures v.WithMaxBlobLen(cap).maxBlobLen <= MAX_BLOB_LEN
    ensures cap <= MAX_BLOB_LEN ==> v.WithMaxBlobLen(cap).maxBlobLen == cap
  {
  }

  // A tightened vault differs from the default one on exactly the inputs whose
  // decoded blob exceeds the cap, and there it reports an input error.
  lemma TighteningRefines(
    w: World, fec: ReadyStrategy, cap: nat, log: Log, master: Bytes, text: string, purpose: byte, extra: Bytes)
    ensures DecryptBytesAad(w, NewVault(fec).WithMaxBlobLen(cap), log, master, text, purpose, extra)
            == if && |master| == KEY_LEN && |text| <= MAX_B64_LEN
                  && w.b64.decode(text).Some? && |w.b64.decode(text).value| > cap
               then Failure(InvalidInput)
               else DecryptBytesAad(w, NewVault(fec), log, master, text, purpose, extra)
  {
  }

  // The tightened vault round-trips a plaintext exactly when its blob fits.
  lemma TightenedRoundTrip(
    w: World, fec: ReadyStrategy, cap: nat, log: Log, master: Bytes, pt: Bytes, purpose: byte, extra: Bytes,
    coins: Coins)
    requires LawfulStrategy(fec) && LawfulBase64(w.b64) && DistinctSeals(log) && LegalCoins(log, coins, |pt|)
    requires |master| == KEY_LEN && |pt| <= MAX_PLAINTEXT_LEN
    ensures var v := NewVault(fec).WithMaxBlobLen(cap);
            var (r, log') := EncryptBytesAad(w, v, log, master, pt, purpose, extra, coins);
            && r == EncryptBytesAad(w, NewVault(fec), log, master, pt, purpose, extra, coins).0
            && DecryptBytesAad(w, v, log', master, r.value, purpose, extra)
               == if |BlobFor(v, pt, coins)| <= cap then Success(pt) else Failure(InvalidInput)
  {
    var v := NewVault(fec).WithMaxBlobLen(cap);
    var log' := EncryptBytesAad(w, v, log, master, pt, purpose, extra, coins).1;
    OwnBlobParses(w, v, log, pt, coins);
    DoorRoundTrip(w, v, log, master, pt, purpose, extra, coins);
    if |BlobFor(v, pt, coins)| <= cap {
      assert OpensAsExpected(w, v, log', w.b64.encode(BlobFor(v, pt, coins)), w.hkdf(master), purpose, extra, pt,
                             master, purpose, extra);
    }
  }
}
