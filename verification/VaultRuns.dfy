// Safety and liveness of the vault over whole runs: any sequence of encryptions,
// wraps and rewraps, with every text that is opened supplied by the channel.

module VaultRuns {
  import opened Format
  import opened Fec
  import opened Blob
  import opened Vault

  // Opening changes nothing, so only the sealing calls are steps. Each call may
  // use its own vault: any strategy, any cap.
  datatype Op =
    | Encrypt(v: Vault, master: Bytes, pt: Bytes, coins: Coins)
    | Wrap(v: Vault, kek: Bytes, salt: Bytes, dek: Bytes, coins: Coins)
    | Rewrapping(v: Vault, oldKek: Bytes, oldSalt: Bytes, newKek: Bytes, newSalt: Bytes, text: string, coins: Coins)

  function Step(w: World, log: Log, op: Op): (Res<string>, Log) {
    match op
    case Encrypt(v, master, pt, coins) => EncryptData(w, v, log, master, pt, coins)
    case Wrap(v, kek, salt, dek, coins) => WrapKey(w, v, log, kek, salt, dek, coins)
    case Rewrapping(v, oldKek, oldSalt, newKek, newSalt, text, coins) =>
      Rewrap(w, v, log, oldKek, oldSalt, newKek, newSalt, text, coins)
  }

  function Run(w: World, ops: seq<Op>): Log {
    if ops == [] then [] else Step(w, Run(w, ops[..|ops| - 1]), ops[|ops| - 1]).1
  }

  // What a call is about to seal, if it gets that far.
  function Subject(w: World, log: Log, op: Op): Res<Bytes> {
    match op
    case Encrypt(_, _, pt, _) => Success(pt)
    case Wrap(_, _, _, dek, _) => Success(dek)
    case Rewrapping(v, oldKek, oldSalt, _, _, text, _) => UnwrapKey(w, v, log, oldKek, oldSalt, text)
  }

  // The random source and the cipher answer within their contracts.
  ghost predicate LegalOp(w: World, log: Log, op: Op) {
    Subject(w, log, op).Success? ==> LegalCoins(log, op.coins, |Subject(w, log, op).value|)
  }

  ghost predicate LegalRun(w: World, ops: seq<Op>) {
    forall i :: 0 <= i < |ops| ==> LegalOp(w, Run(w, ops[..i]), ops[i])
  }

  function MasterOf(op: Op): Bytes {
    match op
    case Encrypt(_, master, _, _) => master
    case Wrap(_, kek, _, _, _) => kek
    case Rewrapping(_, _, _, newKek, _, _, _) => newKek
  }

  function PurposeOf(op: Op): byte {
    if op.Encrypt? then AAD_PURPOSE_DATA else AAD_PURPOSE_ENVELOPE
  }

  function SaltOf(op: Op): Bytes {
    match op
    case Encrypt(_, _, _, _) => []
    case Wrap(_, _, salt, _, _) => salt
    case Rewrapping(_, _, _, _, newSalt, _, _) => newSalt
  }

  // Call i of the run was made for (key, purpose, salt) and sealed exactly pt.
  ghost predicate SealedBy(w: World, ops: seq<Op>, i: nat, key: Bytes, purpose: byte, salt: Bytes, pt: Bytes)
    requires i < |ops|
  {
    && Step(w, Run(w, ops[..i]), ops[i]).0.Success?
    && Subject(w, Run(w, ops[..i]), ops[i]) == Success(pt)
    && w.hkdf(MasterOf(ops[i])) == key && PurposeOf(ops[i]) == purpose && SaltOf(ops[i]) == salt
  }

  // A call appends at most the seal of its subject in its own context.
  lemma StepAppends(w: World, log: Log, op: Op)
    ensures var (r, log') := Step(w, log, op);
            && (r.Failure? ==> log' == log)
            && (r.Success? ==>
                  && Subject(w, log, op).Success? && |Subject(w, log, op).value| <= MAX_PLAINTEXT_LEN
                  && |MasterOf(op)| == KEY_LEN && Answers(op.coins, |Subject(w, log, op).value|)
                  && log' == log + [SealFor(w, MasterOf(op), Subject(w, log, op).value, PurposeOf(op), SaltOf(op),
                                            op.coins)]
                  && r.value == w.b64.encode(BlobFor(op.v, Subject(w, log, op).value, op.coins)))
  {
  }

  lemma {:induction false} RunIsDistinct(w: World, ops: seq<Op>)
    requires LegalRun(w, ops)
    ensures DistinctSeals(Run(w, ops))
  {
    if ops != [] {
      var n := |ops| - 1;
      var before := ops[..n];
      assert forall i :: 0 <= i < n ==> before[..i] == ops[..i];
      RunIsDistinct(w, before);
      StepAppends(w, Run(w, before), ops[n]);
    }
  }

  lemma {:induction false} RunGrows(w: World, ops: seq<Op>, i: nat)
    requires i <= |ops|
    ensures Run(w, ops[..i]) <= Run(w, ops)
    decreases |ops| - i
  {
    if i == |ops| {
      assert ops[..i] == ops;
    } else {
      RunGrows(w, ops, i + 1);
      assert ops[..i + 1][..i] == ops[..i];
      StepAppends(w, Run(w, ops[..i]), ops[i]);
    }
  }

  // Every seal in the log was put there by some call.
  ghost predicate Origin(w: World, ops: seq<Op>, s: Seal, i: nat) {
    && i < |ops| && |s.pt| <= MAX_PLAINTEXT_LEN
    && s.aad == BuildAad(PurposeOf(ops[i]), Header(BLOB_VERSION, |s.pt|), SaltOf(ops[i]))
    && SealedBy(w, ops, i, s.key, PurposeOf(ops[i]), SaltOf(ops[i]), s.pt)
  }

  lemma {:induction false} EverySealHasOrigin(w: World, ops: seq<Op>, s: Seal)
    requires s in Run(w, ops)
    ensures exists i: nat :: Origin(w, ops, s, i)
  {
    var n := |ops| - 1;
    var before := ops[..n];
    StepAppends(w, Run(w, before), ops[n]);
    if s in Run(w, before) {
      EverySealHasOrigin(w, before, s);
      var i: nat :| Origin(w, before, s, i);
      assert before[..i] == ops[..i];
      assert Origin(w, ops, s, i);
    } else {
      assert Origin(w, ops, s, n);
    }
  }

  // No forgery, no crossing of doors, no mixing of contexts: whatever text the
  // channel supplies, a door that returns a plaintext returns one that some
  // earlier call sealed under the same derived key, purpose and salt.
  lemma {:induction false} OnlySealedPlaintexts(
    w: World, ops: seq<Op>, v: Vault, master: Bytes, text: string, purpose: byte, salt: Bytes)
    requires DecryptBytesAad(w, v, Run(w, ops), master, text, purpose, salt).Success?
    ensures exists i: nat :: i < |ops| &&
              SealedBy(w, ops, i, w.hkdf(master), purpose, salt,
                       DecryptBytesAad(w, v, Run(w, ops), master, text, purpose, salt).value)
  {
    hide Run, DecryptBytesAad, BuildAad, Header, SealedBy;
    var s, n := OpenedFromSeal(w, v, Run(w, ops), master, text, purpose, salt);
    EverySealHasOrigin(w, ops, s);
    var i: nat :| Origin(w, ops, s, i);
    AadInjective(purpose, n, salt, PurposeOf(ops[i]), |s.pt|, SaltOf(ops[i]));
  }

  // A data-key that comes out of the envelope door, in any context and after any
  // chain of rewraps, was put in by an earlier wrap call with those very bytes.
  lemma {:induction false} KeysComeFromWraps(w: World, ops: seq<Op>, v: Vault, kek: Bytes, salt: Bytes, text: string)
    requires UnwrapKey(w, v, Run(w, ops), kek, salt, text).Success?
    ensures exists i :: 0 <= i < |ops| && ops[i].Wrap?
              && Success(ops[i].dek) == UnwrapKey(w, v, Run(w, ops), kek, salt, text)
    decreases |ops|
  {
    var dek := UnwrapKey(w, v, Run(w, ops), kek, salt, text).value;
    OnlySealedPlaintexts(w, ops, v, kek, text, AAD_PURPOSE_ENVELOPE, salt);
    var i: nat :| i < |ops| && SealedBy(w, ops, i, w.hkdf(kek), AAD_PURPOSE_ENVELOPE, salt, dek);
    if ops[i].Rewrapping? {
      var op := ops[i];
      KeysComeFromWraps(w, ops[..i], op.v, op.oldKek, op.oldSalt, op.text);
      var j :| 0 <= j < i && ops[..i][j].Wrap? && ops[..i][j].dek == dek;
      assert ops[j].Wrap? && ops[j].dek == dek;
    }
  }

  // What the data door returns was given to an earlier encrypt call.
  lemma {:induction false} DataComesFromEncrypts(w: World, ops: seq<Op>, v: Vault, key: Bytes, text: string)
    requires DecryptData(w, v, Run(w, ops), key, text).Success?
    ensures exists i :: 0 <= i < |ops| && ops[i].Encrypt? && w.hkdf(ops[i].master) == w.hkdf(key)
              && Success(ops[i].pt) == DecryptData(w, v, Run(w, ops), key, text)
  {
    OnlySealedPlaintexts(w, ops, v, key, text, AAD_PURPOSE_DATA, []);
    var pt := DecryptData(w, v, Run(w, ops), key, text).value;
    var i: nat :| i < |ops| && SealedBy(w, ops, i, w.hkdf(key), AAD_PURPOSE_DATA, [], pt);
    assert ops[i].Encrypt?;
  }

  // What call i was about to seal, when it succeeded.
  function SubjectOf(w: World, ops: seq<Op>, i: nat): (pt: Bytes)
    requires i < |ops| && Step(w, Run(w, ops[..i]), ops[i]).0.Success?
    ensures |pt| <= MAX_PLAINTEXT_LEN && Answers(ops[i].coins, |pt|)
  {
    StepAppends(w, Run(w, ops[..i]), ops[i]);
    Subject(w, Run(w, ops[..i]), ops[i]).value
  }

  // At the end of a legal run the log still holds the seal of each of its calls.
  lemma {:induction false} SealsStay(w: World, ops: seq<Op>, i: nat)
    requires LegalRun(w, ops) && i < |ops| && Step(w, Run(w, ops[..i]), ops[i]).0.Success?
    ensures var op, pt := ops[i], SubjectOf(w, ops, i);
            && DistinctSeals(Run(w, ops))
            && SealFor(w, MasterOf(op), pt, PurposeOf(op), SaltOf(op), op.coins) in Run(w, ops)
            && Step(w, Run(w, ops[..i]), op).0.value == w.b64.encode(BlobFor(op.v, pt, op.coins))
  {
    var op, log := ops[i], Run(w, ops[..i]);
    StepAppends(w, log, op);
    RunIsDistinct(w, ops);
    RunGrows(w, ops, i + 1);
    assert ops[..i + 1][..i] == ops[..i];
    assert Run(w, ops)[|log|] == SealFor(w, MasterOf(op), SubjectOf(w, ops, i), PurposeOf(op), SaltOf(op), op.coins);
    assert LegalOp(w, log, op);
  }

  // A text made by any call of a run still opens at the end of it, for its own
  // context and for no other.
  lemma {:induction false} OutputsKeepOpening(w: World, ops: seq<Op>, i: nat)
    requires LawfulBase64(w.b64) && LegalRun(w, ops) && i < |ops| && LawfulStrategy(ops[i].v.fec)
    requires Step(w, Run(w, ops[..i]), ops[i]).0.Success?
    requires |BlobFor(ops[i].v, SubjectOf(w, ops, i), ops[i].coins)| <= ops[i].v.maxBlobLen
    ensures OpensOnlyFor(w, ops[i].v, Run(w, ops), Step(w, Run(w, ops[..i]), ops[i]).0.value,
                         w.hkdf(MasterOf(ops[i])), PurposeOf(ops[i]), SaltOf(ops[i]), SubjectOf(w, ops, i))
  {
    var op := ops[i];
    SealsStay(w, ops, i);
    SealedTextOpens(w, op.v, Run(w, ops), MasterOf(op), SubjectOf(w, ops, i), PurposeOf(op), SaltOf(op), op.coins);
  }

  // ----- Rewrap chains -----

  datatype Context = Context(kek: Bytes, salt: Bytes)

  datatype Hop = Hop(to: Context, coins: Coins)

  // Rewrapping from context to context, each hop starting where the last ended.
  function Chain(w: World, v: Vault, log: Log, from: Context, text: string, hops: seq<Hop>): (Res<string>, Log)
    decreases |hops|
  {
    if hops == [] then (Success(text), log)
    else
      var to := hops[0].to;
      match Rewrap(w, v, log, from.kek, from.salt, to.kek, to.salt, text, hops[0].coins)
      case (Failure(e), log') => (Failure(e), log')
      case (Success(text'), log') => Chain(w, v, log', to, text', hops[1..])
  }

  // Every hop has a full-length key, a blob within the vault's cap, and coins
  // that are fresh when it is taken.
  ghost predicate LegalHops(w: World, v: Vault, log: Log, dek: Bytes, hops: seq<Hop>)
    requires |dek| <= MAX_PLAINTEXT_LEN
    decreases |hops|
  {
    hops != [] ==>
      && |hops[0].to.kek| == KEY_LEN && LegalCoins(log, hops[0].coins, |dek|)
      && |BlobFor(v, dek, hops[0].coins)| <= v.maxBlobLen
      && LegalHops(w, v, log + [HopSeal(w, dek, hops[0])], dek, hops[1..])
  }

  function HopSeal(w: World, dek: Bytes, hop: Hop): Seal {
    SealFor(w, hop.to.kek, dek, AAD_PURPOSE_ENVELOPE, hop.to.salt, hop.coins)
  }

  function LastContext(from: Context, hops: seq<Hop>): Context {
    if hops == [] then from else hops[|hops| - 1].to
  }

  // A chain of any length ends in a text that yields the original key material
  // under the last context, and nothing under any other.
  lemma {:induction false} ChainPreservesKey(
    w: World, v: Vault, log: Log, from: Context, text: string, dek: Bytes, hops: seq<Hop>)
    requires LawfulStrategy(v.fec) && LawfulBase64(w.b64) && DistinctSeals(log) && |dek| <= MAX_PLAINTEXT_LEN
    requires |from.kek| == KEY_LEN
    requires OpensOnlyFor(w, v, log, text, w.hkdf(from.kek), AAD_PURPOSE_ENVELOPE, from.salt, dek)
    requires LegalHops(w, v, log, dek, hops)
    ensures var (r, log') := Chain(w, v, log, from, text, hops);
            var last := LastContext(from, hops);
            && r.Success? && |last.kek| == KEY_LEN && |log'| == |log| + |hops|
            && OpensOnlyFor(w, v, log', r.value, w.hkdf(last.kek), AAD_PURPOSE_ENVELOPE, last.salt, dek)
    decreases |hops|
  {
    hide Rewrap, OpensOnlyFor, DistinctSeals, LawfulStrategy, LawfulBase64, BlobFor, LegalCoins, HopSeal;
    if hops != [] {
      var to := hops[0].to;
      HopOpens(w, v, log, from, text, dek, hops[0]);
      var (r, log') := Rewrap(w, v, log, from.kek, from.salt, to.kek, to.salt, text, hops[0].coins);
      ChainPreservesKey(w, v, log', to, r.value, dek, hops[1..]);
      assert LastContext(from, hops) == LastContext(to, hops[1..]);
    }
  }

  // One hop of it.
  lemma {:induction false} HopOpens(w: World, v: Vault, log: Log, from: Context, text: string, dek: Bytes, hop: Hop)
    requires LawfulStrategy(v.fec) && LawfulBase64(w.b64) && DistinctSeals(log) && |dek| <= MAX_PLAINTEXT_LEN
    requires |from.kek| == KEY_LEN && |hop.to.kek| == KEY_LEN && LegalCoins(log, hop.coins, |dek|)
    requires |BlobFor(v, dek, hop.coins)| <= v.maxBlobLen
    requires OpensOnlyFor(w, v, log, text, w.hkdf(from.kek), AAD_PURPOSE_ENVELOPE, from.salt, dek)
    ensures var (r, log') := Rewrap(w, v, log, from.kek, from.salt, hop.to.kek, hop.to.salt, text, hop.coins);
            && r.Success? && log' == log + [HopSeal(w, dek, hop)] && DistinctSeals(log')
            && OpensOnlyFor(w, v, log', r.value, w.hkdf(hop.to.kek), AAD_PURPOSE_ENVELOPE, hop.to.salt, dek)
  {
    assert OpensAsExpected(w, v, log, text, w.hkdf(from.kek), AAD_PURPOSE_ENVELOPE, from.salt, dek,
                           from.kek, AAD_PURPOSE_ENVELOPE, from.salt);
    hide OpensOnlyFor, DistinctSeals, LawfulStrategy, LawfulBase64, BlobFor, DecryptBytesAad;
    DoorRoundTrip(w, v, log, hop.to.kek, dek, AAD_PURPOSE_ENVELOPE, hop.to.salt, hop.coins);
  }

  // Call j made its text for (kek, salt) at the envelope door.
  predicate MadeFor(w: World, ops: seq<Op>, j: nat, kek: Bytes, salt: Bytes)
    requires j < |ops|
  {
    w.hkdf(MasterOf(ops[j])) == w.hkdf(kek) && PurposeOf(ops[j]) == AAD_PURPOSE_ENVELOPE && SaltOf(ops[j]) == salt
  }

  // Call i of a run rewraps the text that call j made.
  ghost predicate RewrapsOutput(w: World, ops: seq<Op>, i: nat, j: nat) {
    && j < i < |ops| && ops[i].Rewrapping? && ops[i].v.fec == ops[j].v.fec
    && Step(w, Run(w, ops[..j]), ops[j]).0 == Success(ops[i].text)
  }

  // The old key has full length and the text fits the rewrapping vault's cap.
  predicate Admitted(w: World, ops: seq<Op>, i: nat, j: nat)
    requires i < |ops| && ops[i].Rewrapping? && j < |ops| && Step(w, Run(w, ops[..j]), ops[j]).0.Success?
  {
    |ops[i].oldKek| == KEY_LEN && |BlobFor(ops[i].v, SubjectOf(w, ops, j), ops[j].coins)| <= ops[i].v.maxBlobLen
  }

  // Such a rewrap succeeds exactly when the old context is the one the text was
  // made for, the text fits the cap, and the keys have full length; any other
  // leaves the log as it was.
  lemma {:induction false} WrongContextSealsNothing(w: World, ops: seq<Op>, i: nat, j: nat)
    requires LawfulBase64(w.b64) && LegalRun(w, ops) && RewrapsOutput(w, ops, i, j) && LawfulStrategy(ops[j].v.fec)
    ensures var op, r := ops[i], Step(w, Run(w, ops[..i]), ops[i]).0;
            && (r.Success? <==>
                  Admitted(w, ops, i, j) && MadeFor(w, ops, j, op.oldKek, op.oldSalt) && |op.newKek| == KEY_LEN)
            && (r.Failure? ==> Run(w, ops[..i + 1]) == Run(w, ops[..i]))
            && (Admitted(w, ops, i, j) && !MadeFor(w, ops, j, op.oldKek, op.oldSalt) ==> r == Failure(Cipher))
  {
    hide Run, RewrapsOutput, MadeFor, UnwrapKey, EncryptBytesAad, BlobFor, DecryptBytesAad, LegalRun, LawfulStrategy;
    UnwrapOutput(w, ops, i, j);
    RewrapSealing(w, ops, i, j);
  }

  // ... and the second half: it seals what comes out, if the new key has full
  // length, and otherwise nothing.
  lemma {:induction false} RewrapSealing(w: World, ops: seq<Op>, i: nat, j: nat)
    requires LegalRun(w, ops) && RewrapsOutput(w, ops, i, j)
    ensures var op, log, r := ops[i], Run(w, ops[..i]), Step(w, Run(w, ops[..i]), ops[i]).0;
            var dek := UnwrapKey(w, op.v, log, op.oldKek, op.oldSalt, op.text);
            && (dek.Failure? ==> r == Failure(dek.error))
            && (dek.Success? && |dek.value| <= MAX_PLAINTEXT_LEN ==> (r.Success? <==> |op.newKek| == KEY_LEN))
            && (r.Failure? ==> Run(w, ops[..i + 1]) == log)
  {
    hide Run, Step, UnwrapKey, LegalOp;
    RunStep(w, ops, i);
    assert LegalOp(w, Run(w, ops[..i]), ops[i]);
    RewrapOutcome(w, Run(w, ops[..i]), ops[i]);
  }

  lemma RunStep(w: World, ops: seq<Op>, i: nat)
    requires i < |ops|
    ensures Run(w, ops[..i + 1]) == Step(w, Run(w, ops[..i]), ops[i]).1
  {
    hide Step;
    assert ops[..i + 1][..i] == ops[..i];
  }

  lemma {:induction false} RewrapOutcome(w: World, log: Log, op: Op)
    requires op.Rewrapping? && LegalOp(w, log, op)
    ensures var dek, (r, log') := UnwrapKey(w, op.v, log, op.oldKek, op.oldSalt, op.text), Step(w, log, op);
            && (dek.Failure? ==> r == Failure(dek.error))
            && (dek.Success? && |dek.value| <= MAX_PLAINTEXT_LEN ==> (r.Success? <==> |op.newKek| == KEY_LEN))
            && (r.Failure? ==> log' == log)
  {
    hide BlobFor, DecryptBytesAad;
  }

  // What the rewrap's first half makes of the text.
  lemma {:induction false} UnwrapOutput(w: World, ops: seq<Op>, i: nat, j: nat)
    requires LawfulBase64(w.b64) && LegalRun(w, ops) && RewrapsOutput(w, ops, i, j) && LawfulStrategy(ops[j].v.fec)
    ensures var op, pt := ops[i], SubjectOf(w, ops, j);
            UnwrapKey(w, op.v, Run(w, ops[..i]), op.oldKek, op.oldSalt, op.text)
            == if !Admitted(w, ops, i, j) then Failure(InvalidInput)
               else if MadeFor(w, ops, j, op.oldKek, op.oldSalt) then Success(pt) else Failure(Cipher)
  {
    var op, made, before := ops[i], ops[j], ops[..i];
    PrefixKeepsCall(w, ops, i, j);
    var pt, log := SubjectOf(w, before, j), Run(w, before);
    SealsStay(w, before, j);
    OpensOutput(w, op.v, log, made, pt, op.oldKek, op.oldSalt);
  }

  lemma {:induction false} PrefixKeepsCall(w: World, ops: seq<Op>, i: nat, j: nat)
    requires LegalRun(w, ops) && j < i <= |ops| && Step(w, Run(w, ops[..j]), ops[j]).0.Success?
    ensures LegalRun(w, ops[..i]) && Step(w, Run(w, ops[..i][..j]), ops[..i][j]).0.Success?
    ensures SubjectOf(w, ops[..i], j) == SubjectOf(w, ops, j) && ops[..i][..j] == ops[..j]
  {
    hide Run, LegalOp;
    assert forall k :: 0 <= k < i ==> ops[..i][..k] == ops[..k];
  }

  // One more opening of a logged text, at the envelope door and at any cap.
  lemma {:induction false} OpensOutput(w: World, v: Vault, log: Log, made: Op, pt: Bytes, kek: Bytes, salt: Bytes)
    requires LawfulBase64(w.b64) && LawfulStrategy(v.fec) && DistinctSeals(log)
    requires |pt| <= MAX_PLAINTEXT_LEN && Answers(made.coins, |pt|)
    requires SealFor(w, MasterOf(made), pt, PurposeOf(made), SaltOf(made), made.coins) in log
    ensures UnwrapKey(w, v, log, kek, salt, w.b64.encode(BlobFor(v, pt, made.coins)))
            == if |kek| != KEY_LEN || |BlobFor(v, pt, made.coins)| > v.maxBlobLen then Failure(InvalidInput)
               else if && w.hkdf(MasterOf(made)) == w.hkdf(kek) && PurposeOf(made) == AAD_PURPOSE_ENVELOPE
                       && SaltOf(made) == salt
                    then Success(pt) else Failure(Cipher)
  {
    OwnBlobParses(w, v, log, pt, made.coins);
    var text := w.b64.encode(BlobFor(v, pt, made.coins));
    if |BlobFor(v, pt, made.coins)| <= v.maxBlobLen {
      SealedTextOpens(w, v, log, MasterOf(made), pt, PurposeOf(made), SaltOf(made), made.coins);
      hide DecryptBytesAad, BlobFor, LawfulStrategy, LawfulBase64;
      assert OpensAsExpected(w, v, log, text, w.hkdf(MasterOf(made)), PurposeOf(made), SaltOf(made), pt,
                             kek, AAD_PURPOSE_ENVELOPE, salt);
    }
  }
}
