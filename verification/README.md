# cryptovault: the error-correction pipeline, its framing and the vault, verified

This project models how cryptovault turns a plaintext into a blob and back:
authenticated encryption, a header, an outer Reed-Solomon code, an interleaver and
an inner Viterbi code applied in sub-blocks. It proves that each stage is inverted
exactly, that channel bursts are spread as far as the interleaver promises, that a
receiver can recover every boundary from a length alone, that a blob damaged within
the outer code's reach still opens, and that over any run of calls the vault only
ever releases plaintexts that were sealed for the same derived key, purpose and salt.

## How the model is built

- `Format.dfy`, `LittleEndian.dfy`, `Permutations.dfy`, `FiniteSets.dfy`: constants,
  ceilings, byte order, index permutations, set sizes.
- `BlockOrder.dfy`, `Windows.dfy`, `Keystream.dfy`, `FisherYates.dfy`,
  `Interleaver.dfy`: the interleaver. The loops run over arrays and a mutable cipher
  position and are proved against closed-form specifications; the theorems are about
  those specifications.
- `Burst.dfy`, `KeyedBurst.dfy`: what a contiguous burst costs each codeword, at most
  and at worst, without and with the keyed layer.
- `ViterbiFraming.dfy`, `ViterbiCodec.dfy`: sub-block boundaries and the chunked codec.
- `ReedSolomon.dfy`, `Fec.dfy`, `EndToEnd.dfy`: the four strategies as records of
  functions, one law for all of them, and the behaviour of the whole stack under damage.
- `Blob.dfy`, `Vault.dfy`, `VaultRuns.dfy`: the blob codec, the vault over an ideal
  AEAD log, and whole runs.
- `Delivery.dfy`: a noisy channel between the two ends of the vault: what still opens,
  and what is reported.
- `Instances.dfy`: an instance of every external contract.

Libraries whose code is not in the repository appear as contracts over function
values: the Reed-Solomon code (`ReedSolomon.Corrects`), the single-block inner code
(`ViterbiCodec.Lawful`), base64 (`Vault.LawfulBase64`), ChaCha20 (an arbitrary
function from key and nonce to a keystream) and HKDF (an arbitrary function). The
AEAD is an ideal functionality: sealing appends to a log, opening succeeds only on an
entry of it. Nonces and ciphertexts are parameters of each sealing call; liveness
results ask that a nonce-ciphertext pair is not handed out twice, safety results ask
nothing of them; a pair of the wrong lengths stands for a cipher that failed.

ChaCha20 being arbitrary, a keystream may run out of acceptable words, and then the
retry loop does not end. Everything about the keyed layer is proved under the exact
condition that the draws concerned do end: an acceptable word ahead for one draw
(`Keystream.AcceptAhead`), one for every draw of a window (`FisherYates.Drawable`), and
that for every window of a stream (`Interleaver.Serves`, which is always true of the
block interleaver alone). A strategy's `encode` is a partial function, defined where the
call returns; `Fec.Concatenated` asks for the draws at the lengths a vault can send or
its gate let in (`Fec.InReach`, `Fec.GateReach`), and no others. A keystream with a
32-bit word whose top bit is clear ahead of every position (`Keystream.Lively`) meets
all of them; `Instances.OnesDrawTwo` shows that it need not be lively to serve a window.

With a zero window `CsprngLayer::interleave` does not end on a non-empty stream, and
that is the only such case (`Windows.LoopEndsExactly`); `depth * 255` never is zero.

Everything on the decrypt path, from `Vault.DecryptBytesAad` through `Blob.DecodeBlob`
to `Fec.Stack.Decode`, is a total function of the received bytes and of whatever the
two external codecs return (wherever the keyed draws, if any, end), so no index, slice
or subtraction in it can go wrong; by `Blob.AcceptedBodyLength` the nonce-length guard
after `decode_blob` never fires.

Beside the round trips, each stage is described on all inputs, in terms of offsets,
lengths and the answers of the external codes: `ViterbiCodec.EncodeExact` and
`DecodeExact`, `ReedSolomon.RsDecodeExact`, `Fec.GateExact`, `Fec.StackDecodeExact`,
`Interleaver.ShuffledPlace`, `Blob.DecodeBlobExact`, `Vault.EncryptExact`.

## Where the code and its promises differ

- The interface documentation says that `decode` inverts `encode`. It does so on all
  data for three strategies. For the concatenated stack, whose `decode` gates its input
  first, it does so if and only if the data is non-empty and its encoding is within
  `MAX_BLOB_LEN` (`Fec.StackRoundTripExact`); otherwise the result is an input error.
- Gating with `validate_pre_fec` and then decoding, as the decrypt path does, recovers
  exactly the data whose encoding fits the cap and which, for RS-only and for the
  concatenated stack, is not empty: their gates reject the empty blob. The vault never
  meets that case, since a protected payload has at least 33 bytes.
- The documentation of `CsprngLayer` says that it replaces each window's block
  permutation. The code applies it after the block permutation, and so does the model.
- The burst bound of the interleaver's documentation is the block order's. With the
  keyed layer a burst can cost a codeword its whole share of the window, and no more
  (`KeyedBurst.ShareBounds`); some keystream makes it that much
  (`KeyedBurst.ShareAttained`). So up to 16 symbols are corrected under either strategy
  and any seed (`EndToEnd.SixteenSymbolsCorrected`), and with the keyed layer exactly the
  bursts with at most 16 symbols in any window are safe whatever the keystream
  (`EndToEnd.KeyedSurvivableExact`).

## Model

| member | source | states |
|---|---|---|
| BlockOrder.WindowOrder | src/fec/interleaver.rs:116-127 | the nested column/row loops produce the closed-form read order at every filled length |
| BlockOrder.SourceAt | src/fec/interleaver.rs:116-127 | row r of column c is cell 255r+c, read at the start of column c plus r; columns before the remainder hold one row more |
| BlockOrder.Locate | src/fec/interleaver.rs:116-127 | every output place is some filled row of some column: nothing is skipped at a ragged end |
| BlockOrder.ReadOrderIsPerm | src/fec/interleaver.rs:109-127 | the read order is a permutation of 0..filled |
| BlockOrder.SourceOfPosition | src/fec/interleaver.rs:109-127 | the closed-form inverse position of a cell is where it is read |
| Windows.GatherNext | src/fec/interleaver.rs:145-151 | one window of the interleave loop extends the finished prefix of the specified result and keeps base and window index in step |
| Windows.ScatterWindow | src/fec/interleaver.rs:175-177 | the scatter loop fills a window through the inverse permutation, writes each of its cells exactly once and touches nothing else |
| Windows.ScatterNext | src/fec/interleaver.rs:173-179 | as GatherNext, for one window of the de-interleave loop |
| Windows.WindowedRoundTrip | src/fec/interleaver.rs:141-181 | windowed gather and scatter are two-sided inverses at every stream length, for any per-window permutations |
| Windows.LoopEndsExactly | src/fec/interleaver.rs:279-309 | the window loops reach the end of the stream if and only if the window is not empty or the stream is |
| Interleaver.BlockInterleaver.InterleaveInto | src/fec/interleaver.rs:141-153 | the buffer loop returns the specified window-wise permutation of the stream |
| Interleaver.BlockInterleaver.DeinterleaveInto | src/fec/interleaver.rs:169-181 | the buffer loop returns its inverse |
| Interleaver.CsprngLayer.KeyedWindow | src/fec/interleaver.rs:256-271 | a fresh cipher under the window's nonce yields the keyed order of that window, whenever its draws end |
| Interleaver.CsprngLayer.InterleaveInto | src/fec/interleaver.rs:279-292 | on the empty stream, and wherever the window is not empty, its swap ranges fit 32 bits and its draws end, the keyed loop returns the specified keyed permutation, base and window counter advancing together |
| Interleaver.CsprngLayer.DeinterleaveInto | src/fec/interleaver.rs:296-309 | under the same condition the keyed loop returns its inverse |
| Interleaver.WindowNonceInjective | src/fec/interleaver.rs:261-263 | distinct 64-bit window indices give distinct nonces |
| Interleaver.WindowCipher | src/fec/interleaver.rs:256-263 | window w is ordered by the cipher under the one 12-byte nonce whose first eight bytes are w, little end first, and whose last four are zero |
| Interleaver.ShuffledPlace | src/fec/interleaver.rs:279-292 | byte k of window w of the keyed layer's output is byte p[k] of the same window of its input, p being the order of that window's cipher |
| Interleaver.Interleaver.InterleaveInto | src/fec/interleaver.rs:332-340 | the strategy applies block order, then the keyed layer if present and serving the stream |
| Interleaver.Interleaver.DeinterleaveInto | src/fec/interleaver.rs:352-360 | the strategy undoes the keyed layer, if present and serving the stream, before the block order |
| Interleaver.InterleaverRoundTrip | src/fec/interleaver.rs:327-361 | both strategies are two-sided inverses at every depth and length, the keyed one for every seed on which the draws for that length end |
| Interleaver.LivelyServes | src/fec/interleaver.rs:256-271 | a seed whose window keystreams always have a word below 2^31 ahead serves streams of every length |
| Keystream.LimitIsLargestMultiple | src/fec/interleaver.rs:236 | the rejection limit is the largest multiple of the range not above 2^32 |
| Keystream.MostDrawsAccepted | src/fec/interleaver.rs:234-245 | strictly more than half of all draws are accepted |
| Keystream.DrawsAreUnbiased | src/fec/interleaver.rs:228-245 | every residue has exactly floor(2^32/range) accepted draws |
| Keystream.FirstAcceptedExact | src/fec/interleaver.rs:237-244 | the word used is accepted, no earlier one is, and that determines it |
| Keystream.NextIndex | src/fec/interleaver.rs:234-245 | whenever an acceptable word lies ahead the retry loop ends, returns the residue of the first one and stops just past it |
| FisherYates.ShuffledWindow | src/fec/interleaver.rs:256-271 | on every keystream on which the window's draws end, the in-place shuffle computes the keyed order |
| FisherYates.ShuffleInPlace | src/fec/interleaver.rs:264-269 | under the same condition the descending swap loop is the shuffle of the drawn partners |
| FisherYates.SwapDrawn | src/fec/interleaver.rs:265-269 | one swap is one step of the shuffle, consumes exactly its draws and leaves the rest drawable |
| FisherYates.LivelyIsDrawable | src/fec/interleaver.rs:234-245 | a keystream that always has a word below 2^31 ahead ends every draw of every window |
| FisherYates.KeyedOrderIsPerm | src/fec/interleaver.rs:247-271 | the keyed order is a permutation for every keystream on which the window's draws end |
| FisherYates.ShuffleIsPerm | src/fec/interleaver.rs:264-269 | every valid draw sequence shuffles a permutation into a permutation |
| FisherYates.ShuffleBijective | src/fec/interleaver.rs:264-269 | each permutation comes from exactly one draw sequence |
| FisherYates.DrawsAreResidues | src/fec/interleaver.rs:237-269 | the draws consumed, whenever they end, are the residues of accepted keystream words |
| FisherYates.PreimagesExact | src/fec/interleaver.rs:237-269 | the counted word vectors are exactly those whose residues are the given draws |
| FisherYates.CountPreimages | src/fec/interleaver.rs:237-269 | each draw sequence has the same number of accepted word vectors |
| FisherYates.ShuffleUniform | src/fec/interleaver.rs:247-271 | every permutation is produced by the same number of accepted word vectors: the shuffle is exactly uniform |
| FisherYates.KeyedOrderCounted | src/fec/interleaver.rs:256-271 | a keystream on which the draws end yields window permutation q exactly when the words it accepts are one of the vectors counted for q |
| Burst.CodewordOfPlace | src/fec/interleaver.rs:15-22 | inside a window consecutive symbols come from the codewords in strict rotation |
| Burst.BurstSpread | src/fec/interleaver.rs:24-44 | after de-interleaving a burst, a codeword of window w has at most ceil(share of w / codewords in w) errors |
| Burst.BurstBounded | src/fec/interleaver.rs:30-44 | a burst of at most t times the codewords of a window costs its codewords at most t, across boundaries and in short windows |
| Burst.FullWindowsBurst | src/fec/interleaver.rs:26-35 | over full windows a burst of t*depth costs any codeword at most t; t = 1 is the documented guarantee |
| Burst.BurstAttained | src/fec/interleaver.rs:37-44 | when every symbol of the burst is wrong, the codeword first hit in window w has at least ceil(share / codewords) errors: the bound is tight in every window |
| KeyedBurst.ShareBounds | docs/interleaver-csprng-degradation.md:54-57 | under either strategy, any seed and keystream, a burst costs a codeword at most the smaller of its share of the codeword's window and 255 |
| KeyedBurst.EveryOrderOccurs | src/fec/interleaver.rs:256-271 | every order of a window is the keyed order of some keystream that never runs out of acceptable words |
| KeyedBurst.ShareAttained | docs/interleaver-csprng-degradation.md:43-57 | for every burst and every codeword of a window it touches, some keystream makes the codeword take as many errors as the bound allows |
| ViterbiFraming.BoundariesAgree | src/fec/viterbi.rs:179-192 | the receiver's boundaries from the total length are the sender's, for every stream length |
| ViterbiFraming.FramingExact | src/fec/viterbi.rs:179-221 | a length is accepted, and inverted to L, if and only if it is 2L + 2*ceil(L/chunk); every other length is rejected |
| ViterbiFraming.BodiesFit | src/fec/viterbi.rs:123-146 | bodies add up to the total, fit the scratch sized from the largest and the million-bit cap, and their bit count inverts the encoder's |
| ViterbiFraming.MaxInfoAttained | src/fec/viterbi.rs:128-133 | the scratch is sized by a body that is really there, not by a full chunk |
| ViterbiFraming.ChunkIsLargest | src/lib.rs:341-354 | a chunk is the largest number of whole codewords that a single block of the inner code may carry |
| ViterbiCodec.Encode | src/fec/viterbi.rs:77-92 | the chunk loop computes the specified stream; the encoder's failure branch is unreachable |
| ViterbiCodec.EncodedLength | src/fec/viterbi.rs:73-92 | the coded length is 2L + 2 per sub-block |
| ViterbiCodec.Decode | src/fec/viterbi.rs:123-146 | the decoding method computes the specified result on any received bytes, errors included |
| ViterbiCodec.DecodeLoop | src/fec/viterbi.rs:134-145 | the offset loop consumes the body exactly and stops at the first failing block |
| ViterbiCodec.DecodedLength | src/fec/viterbi.rs:123-146 | whatever decodes has the length the framing derives |
| ViterbiCodec.CodecRoundTrip | src/fec/viterbi.rs:77-146 | decoding inverts encoding at every stream length |
| ViterbiCodec.EncodeExact | src/fec/viterbi.rs:77-92 | sub-block i of the coded stream, found by its offset alone, is the inner code's block for chunk i |
| ViterbiCodec.DecodeExact | src/fec/viterbi.rs:123-241 | on any received body: an input error if no stream has its coded length; else the sub-blocks' answers in order, at fixed offsets and with their bit counts, or the mapped error of the first one refused |
| ViterbiCodec.DamageContained | src/fec/viterbi.rs:96-146 | corruption inside one coded sub-block changes decoded bytes of that sub-block only |
| ReedSolomon.RsRecovers | src/fec/rs.rs:57-77 | within 16 errors per codeword the wrapper returns the zero-padded data cut to the asked length |
| ReedSolomon.RsDecodeExact | src/fec/rs.rs:57-77 | on any received bytes the wrapper succeeds exactly with what the code returns on whole codewords; uncorrectable is exactly ErrorCorrection, anything else exactly an input error |
| ReedSolomon.RsGateExact | src/fec/rs.rs:87-100 | the RS-only gate accepts exactly one or more whole codewords within the cap, and derives 223 bytes for each |
| Fec.CrossCheckNeverFires | src/fec/mod.rs:253-264 | the post-Viterbi length check cannot fail on any received bytes |
| Fec.GateOnOwnOutput | src/blob.rs:191-208 | on the stack's own output the gate derives the Reed-Solomon length, and rejects exactly empty or over-cap data |
| Fec.StackRecovers | src/fec/mod.rs:253-267 | errors within the outer code's capacity after inner decoding leave the data exact |
| Fec.StackRoundTripExact | src/fec/mod.rs:231-267 | decode inverts encode if and only if the data is non-empty and its encoding fits the cap; otherwise an input error |
| Fec.StackGatesAgree | src/fec/mod.rs:269-282 | the length from the gate is ceil(n/223)*223, exactly the padded length that decode then recovers |
| Fec.SizesFit | src/lib.rs:365-380 | every strategy's output of an admissible payload is within MAX_BLOB_LEN |
| Fec.CapIsAttained | src/lib.rs:365-380 | the longest payload's concatenated blob has exactly MAX_BLOB_LEN bytes: the cap is tight |
| Fec.TextFits | src/lib.rs:382-384 | the padded base64 of a blob under the cap is within MAX_B64_LEN |
| Fec.NoFecLawful | src/vault.rs:132-166 | the identity strategy obeys the strategy law; its decode inverts its encode on all data, and the gated path recovers exactly the data within the cap |
| Fec.RsOnlyLawful | src/fec/rs.rs:37-101 | the RS-only strategy obeys the strategy law; its decode inverts its encode on all data, the empty one included, and the gated path recovers exactly the non-empty data within the cap |
| Fec.ViterbiOnlyLawful | src/fec/viterbi.rs:275-335 | the Viterbi-only strategy obeys the strategy law; its decode inverts its encode on all data, and the gated path recovers exactly the data whose encoding is within the cap |
| Fec.ConcatenatedLawful | src/fec/mod.rs:231-283 | the concatenated strategy obeys the strategy law if the draws within its reach end; at every length where they end, both its decode and the gated path recover exactly the non-empty data whose encoding is within the cap |
| Fec.SharedMasterRoundTrip | src/fec/mod.rs:192-210 | a stack can be built from a master and a depth exactly when the master and its seed have 32 bytes and the depth is 1 to 16; it holds the given codecs, the block order of that depth and the layer keyed with the expanded seed, and undoes its own encoding exactly on non-empty data within the cap, wherever its draws end |
| Fec.MasterStreamOrder | src/fec/mod.rs:192-210 | a stack built from a master interleaves by the block order of its depth and then, over the whole output, by the layer keyed with the expanded seed |
| Fec.PeersAgree | src/fec/mod.rs:159-161 | of two stacks built apart, from masters that expand to one seed and at one depth, each decodes what the other encodes, wherever the draws for that length end |
| Fec.StackSends | src/fec/mod.rs:234-236 | each sub-block that a stack sends is the inner code's block for that chunk of the interleaved outer stream |
| Fec.PlainStrategiesNameErrors | src/fec/rs.rs:57-100 | NoFec never fails to decode; RS-only reports a correction failure only on whole codewords, and input errors otherwise |
| Fec.ViterbiOnlyNamesErrors | src/fec/viterbi.rs:149-241 | Viterbi-only reports a correction failure only on a well-framed body, and input errors otherwise |
| Fec.ConcatenatedNamesErrors | src/fec/mod.rs:248-252 | the stack reports a correction failure only on a blob its gate accepts, and input errors otherwise |
| Fec.GateReach | src/blob.rs:191-208 | the gate accepts only whole codewords, at least one and at most as many as the longest payload takes |
| Fec.GateExact | src/blob.rs:191-208 | on any received body the gate answers l exactly when the body has the coded length of l, within the cap, and l is a positive number of whole codewords; else an input error |
| Fec.StackGateExact | src/fec/mod.rs:277-282 | the stack answers 223 for each codeword whose coded length the body has, and accepts nothing else |
| Fec.StackDecodeExact | src/fec/mod.rs:253-267 | decode succeeds with d exactly when the gate accepts, the inner decoder delivers and the outer code answers d on the de-interleaved stream; an uncorrectable answer is exactly ErrorCorrection |
| Fec.PlainGatesExact | src/fec/viterbi.rs:325-335 | on any received body the NoFec gate answers its length within the cap, and the Viterbi-only gate the stream length whose coded length the body has |
| Fec.PlainDecodesExact | src/vault.rs:146-149 | on any received bytes NoFec returns what came and Viterbi-only what its decoder delivers, both cut to the asked length; decoder errors pass through |
| Fec.PlainDecodesCut | src/vault.rs:120-130 | at every length, NoFec and Viterbi-only decode their own encoding to the data cut to that length |
| EndToEnd.CorrectableDecodes | src/fec/mod.rs:253-267 | damage that leaves every codeword within 16 symbol errors is corrected at every admissible length, the one the gate derives included, under either interleaver |
| EndToEnd.BurstCorrected | src/fec/interleaver.rs:24-44 | under either interleaver a survivable burst in the inner decoder's output is corrected to the padded data at every admissible length |
| EndToEnd.SurvivableExact | src/fec/interleaver.rs:37-44 | when every symbol of a burst is wrong, the codewords stay within reach if and only if the burst is survivable |
| EndToEnd.KeyedSurvivableExact | docs/interleaver-csprng-degradation.md:43-57 | with the keyed layer, no keystream and no damage inside the burst takes a codeword out of reach if and only if every window's share is at most 16 symbols |
| EndToEnd.SymbolBurstCorrected | src/fec/interleaver.rs:24-44 | a survivable burst on the symbols between interleaver and inner code is corrected at every admissible length |
| EndToEnd.SixteenDepthsCorrected | src/fec/interleaver.rs:24-35 | over full windows any burst of up to 16*depth symbols is corrected at every admissible length |
| EndToEnd.ShortWindowSurvives | src/fec/interleaver.rs:37-44 | with p codewords in the shortest window, any burst of up to 16*p symbols is survivable |
| EndToEnd.SixteenSymbolsSurvive | docs/interleaver-csprng-degradation.md:54-57 | a burst of up to 16 symbols, after inner decoding, is survivable under either interleaver at every depth, stream length and position |
| EndToEnd.SixteenSymbolsCorrected | docs/interleaver-csprng-degradation.md:54-57 | and is corrected, under either interleaver and any seed whose draws end, at every admissible length |
| EndToEnd.InterleaverContains | src/fec/interleaver.rs:352-360 | de-interleaving, under either strategy, moves no byte out of its window |
| EndToEnd.SubBlockDamage | src/fec/mod.rs:253-267 | a corrupted coded sub-block reaches only the windows its bytes lie in |
| EndToEnd.SubBlockDamageAligned | src/lib.rs:350-354 | when the depth divides 490, only the 490 codewords carried by that sub-block can differ |
| EndToEnd.DefaultSubBlockDamage | src/fec/mod.rs:213-229 | so it is for the stack wired by default, of depth 5 |
| EndToEnd.DefaultBurstCorrected | src/fec/mod.rs:213-229 | over whole windows of 1275 bytes the default stack corrects any burst of up to 80 symbols |
| Blob.ParseExact | src/blob.rs:111-142 | a payload is accepted if and only if it starts with the current version, an admissible length and that length's body |
| Blob.BlobRoundTrip | src/blob.rs:50-143 | under any lawful strategy decode_blob returns the version, length and body given to encode_blob, within the cap |
| Blob.OtherVersionRefused | src/blob.rs:119-122 | a blob encoded under any other version is refused as an input error |
| Blob.HeaderLayout | src/vault.rs:405-410 | the header is the version byte and the four bytes of the length, little end first |
| Blob.DecodeBlobExact | src/blob.rs:102-142 | on any received blob the gate's and the decoder's errors come through unchanged, a decoded payload opens exactly as what it carries, and one that carries nothing is an input error |
| Blob.AcceptedBodyLength | src/blob.rs:129-142 | whatever is received, an accepted body is 28 bytes longer than the length its header announces |
| Vault.AadInjective | src/vault.rs:405-425 | purpose, plaintext length and salt are determined by the bound data |
| Vault.AadLayout | src/vault.rs:419-425 | the bound data is purpose, header and salt in that order, so the data bound for any salt extends that bound for none |
| Vault.EncryptExact | src/vault.rs:359-401 | encryption fails exactly on a bad key length, an over-long plaintext or a failed cipher, and then logs nothing; else it appends one seal, and its text encodes the very header the seal binds, the nonce and the ciphertext |
| Vault.DoorsSeal | src/vault.rs:25-35 | the data door seals under purpose 1 with no salt, the envelope door under purpose 2 with its salt |
| Vault.OpenedFromSeal | src/vault.rs:475-536 | a plaintext that comes out was sealed under the caller's derived key with the caller's purpose and salt bound |
| Vault.OwnBlobParses | src/vault.rs:359-401 | what encryption produces is never refused for size and parses to its own nonce and ciphertext |
| Vault.SealedTextOpens | src/vault.rs:475-536 | a sealed text opens for its own derived key, purpose and salt, and fails the tag for every other |
| Vault.DoorRoundTrip | src/vault.rs:359-401 | sealing succeeds exactly for full-length keys and admissible plaintexts, and its text then opens for its own context only |
| Vault.ErrorNamesStage | src/error.rs:18-52 | at the byte core an error tells its stage: Encoding exactly for bad text, ErrorCorrection exactly when the blob layer reports it, and then only for sound blobs, Cipher exactly when everything before the tag check passed |
| Vault.TighteningRefines | src/vault.rs:262-265 | a capped vault differs from the default exactly on blobs over the cap, with an input error |
| Vault.LastCapCounts | src/vault.rs:244-265 | the cap set last is the one that counts, clamped to the format's own |
| Vault.TightenedRoundTrip | src/vault.rs:262-265 | a capped vault round-trips a plaintext if and only if its blob fits the cap |
| VaultRuns.OnlySealedPlaintexts | src/vault.rs:475-536 | over every run and every channel text, a door releases only what an earlier call sealed under the same derived key, purpose and salt |
| VaultRuns.KeysComeFromWraps | src/vault.rs:662-740 | a key out of the envelope door was given to an earlier wrap call, through any number of rewraps |
| VaultRuns.DataComesFromEncrypts | src/vault.rs:25-35 | the data door returns only what an encrypt call under the same derived key was given |
| VaultRuns.OutputsKeepOpening | src/vault.rs:359-536 | every text made in a run opens at the end of it, for its own context and no other |
| VaultRuns.ChainPreservesKey | src/vault.rs:726-739 | a rewrap chain of any length ends in a text that yields the original key under the last context and nothing under another |
| VaultRuns.WrongContextSealsNothing | src/vault.rs:726-739 | in a legal run a rewrap of a text made by an earlier call succeeds if and only if its old context is the one the text was made for, the text fits the cap and the keys have full length; otherwise the log stays as it was |
| Delivery.DamagedBlobParses | src/blob.rs:102-142 | a received blob damaged within the outer code's reach parses to the version, length and body that were sent, at the length the gate derives |
| Delivery.DamagedTextOpens | src/vault.rs:475-536 | the damaged text of a logged seal opens for its own key, purpose and salt and for nothing else, exactly as the clean one |
| Delivery.NoisyDoors | src/fec/mod.rs:9-14 | from sealing to opening, at both doors, damage that leaves every codeword within reach after inner decoding leaves the exact plaintext |
| Delivery.BurstyDoors | src/fec/mod.rs:9-14 | the same for any survivable burst of symbols after inner decoding, under either interleaver |
| Delivery.SixteenSymbolDoors | docs/interleaver-csprng-degradation.md:54-57 | in particular for any burst of up to 16 of those symbols, whatever the plaintext, the seed and the position |
| Delivery.OpensOnlyAnswers | src/fec/mod.rs:9-14 | a received blob opens as o exactly when the outer code answers, at the gate's length, a payload that carries o |
| Delivery.UncorrectableIsReported | src/fec/mod.rs:9-14 | a text whose blob the outer code calls uncorrectable is refused by the vault with ErrorCorrection, at either door and under every key |
| Delivery.RsOnlyReports | src/fec/rs.rs:57-77 | the same under the RS-only strategy |
| Delivery.NoisyOutputsKeepOpening | src/fec/mod.rs:9-14 | over every legal run, any call's text so damaged still opens at the end, for its own context alone |

## Left out

- The arithmetic inside the Reed-Solomon and Viterbi codes, AES-GCM-SIV, Argon2id, HKDF, ChaCha20 and base64: library code that is not part of this model; contracts stand for it.
- A correction capacity for the Viterbi stage: the repository measures one, it does not define one, so burst results speak of the inner decoder's output.
- A Reed-Solomon instance at the real sizes 223, 255 and 16: `Instances.RepetitionCorrects` meets the contract for every chunk size and error count with a longer codeword.
- Memory exhaustion: the inner code's contract lets a decode fail for it, but a clean decode is taken to succeed.
- The vault object is a value: `with_max_blob_len` consumes and returns it, so no aliasing is lost.
- UTF-8 checking in `decrypt_with_key` and its Encoding error, password and salt length checks in `derive_key`: single checks around the byte core that is modelled.
- Random number failure, buffer wiping, constant-time comparison and error message texts: no functional content.
- The statistical material (bit-error rates, clustering probability, recommended payload size): floating point and sampling.
- `usize` overflow: lengths are unbounded integers here.
