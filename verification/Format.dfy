// Format constants and the size arithmetic shared by every layer (src/lib.rs).

module Format {
  newtype byte = x: int | 0 <= x < 256
  type Bytes = seq<byte>

  const KEY_LEN: nat := 32
  const NONCE_LEN: nat := 12
  const TAG_LEN: nat := 16
  const HEADER_LEN: nat := 5
  const MAX_PLAINTEXT_LEN: nat := 10 * 1024 * 1024
  const TERMINATION_OVERHEAD: nat := 2
  const BLOB_VERSION: byte := 1
  const RS_DATA: nat := 223
  const RS_BLOCK: nat := 255
  const RS_INTERLEAVE_MAX: nat := 16
  const VITERBI_CHUNK: nat := 490 * RS_BLOCK

  // Symbol errors per codeword that RS(255,223) corrects: half of the 32 parity symbols.
  const RS_CORRECTS: nat := 16

  // Cap of the inner code's single-block interface, in information bits.
  const MAX_SUPPORTED_INFO_BITS: nat := 1_000_000

  // Longest protected payload: header, nonce, largest ciphertext and tag.
  const PROTECTED_MAX: nat := MAX_PLAINTEXT_LEN + HEADER_LEN + NONCE_LEN + TAG_LEN

  const MAX_BLOB_LEN: nat :=
    var rsBlocks := CeilDiv(PROTECTED_MAX, RS_DATA);
    var rsMax := rsBlocks * RS_BLOCK;
    var viterbiChunks := CeilDiv(rsMax, VITERBI_CHUNK);
    rsMax * 2 + TERMINATION_OVERHEAD * viterbiChunks

  const MAX_B64_LEN: nat := MAX_BLOB_LEN * 4 / 3 + 4

  datatype Result<+T, +E> = Success(value: T) | Failure(error: E)

  datatype Option<+T> = None | Some(value: T)

  // One constructor per failing stage; the message texts are not modelled.
  datatype CryptoError = KeyDerivation | Cipher | ErrorCorrection | Encoding | InvalidInput

  type Res<+T> = Result<T, CryptoError>

  // The two streams differ at most inside [lo, hi).
  ghost predicate DamagedWithin(a: Bytes, b: Bytes, lo: nat, hi: nat) {
    |a| == |b| && forall x :: 0 <= x < |a| && !(lo <= x < hi) ==> a[x] == b[x]
  }

  function Min(a: nat, b: nat): nat {
    if a <= b then a else b
  }

  // The least q whose product with b covers a.
  function CeilDiv(a: nat, b: nat): (q: nat)
    requires b > 0
    ensures a <= q * b
    ensures q > 0 ==> (q - 1) * b < a
  {
    DivModFacts(a, b);
    assert (a / b + 1) * b == a / b * b + b;
    if a % b == 0 then a / b else a / b + 1
  }

  lemma DivModFacts(a: int, b: int)
    requires b > 0
    ensures a == a / b * b + a % b && 0 <= a % b < b
    ensures a >= 0 ==> a / b >= 0
  {
  }

  lemma MulMono(x: int, y: int, b: int)
    requires x <= y && b >= 0
    ensures x * b <= y * b
  {
  }

  lemma {:induction false} DivModUnique(a: int, b: int, q: int, r: int)
    requires b > 0 && 0 <= r < b && a == q * b + r
    ensures a / b == q && a % b == r
  {
    DivModFacts(a, b);
    var d := q - a / b;
    assert d * b == q * b - a / b * b == a % b - r;
    if d > 0 {
      MulMono(1, d, b);
    } else if d < 0 {
      MulMono(d, -1, b);
    }
  }

  lemma CeilDivMono(a: nat, a': nat, b: nat)
    requires b > 0 && a <= a'
    ensures CeilDiv(a, b) <= CeilDiv(a', b)
  {
    var p, q := CeilDiv(a, b), CeilDiv(a', b);
    if q < p {
      MulMono(q, p - 1, b);
    }
  }

  lemma CeilDivMultiple(m: nat, b: nat)
    requires b > 0
    ensures CeilDiv(m * b, b) == m
  {
  }
}
