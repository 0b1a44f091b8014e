// Each external contract has an instance: a repetition code for the outer code
// (any chunk size, any error count), a plain code for the inner one, a text codec,
// and a keystream.

module Instances {
  import opened Format
  import opened FiniteSets
  import opened ReedSolomon
  import opened ViterbiFraming
  import opened ViterbiCodec
  import opened Keystream
  import opened FisherYates
  import opened Vault

  // ----- Outer code: every symbol 2t+1 times, read back by majority -----

  function Repeat(p: Bytes, r: nat): (s: Bytes)
    requires r > 0
    ensures |s| == |p| * r
  {
    seq(|p| * r, j requires 0 <= j < |p| * r => SymbolIndex(|p|, r, j); p[j / r])
  }

  lemma SymbolIndex(n: nat, r: nat, j: nat)
    requires r > 0 && j < n * r
    ensures j / r < n
  {
  }

  // The copies of symbol i that read v.
  function Votes(y: Bytes, r: nat, i: nat, v: byte): set<nat>
    requires r > 0
  {
    set j: nat | j < |y| && j / r == i && y[j] == v
  }

  ghost function Elected(y: Bytes, r: nat, t: nat, i: nat): byte
    requires r > 0
  {
    if exists v :: |Votes(y, r, i, v)| > t then
      var v :| |Votes(y, r, i, v)| > t; v
    else 0
  }

  ghost function RepetitionDecode(y: Bytes, t: nat, preLen: nat): Result<Bytes, RsError> {
    var r := 2 * t + 1;
    if preLen * r > |y| then Failure(InvalidLength)
    else Success(seq(preLen, i requires 0 <= i < preLen => Elected(y, r, t, i)))
  }

  ghost function RepetitionCode(k: nat, t: nat): RsCode
    requires k > 0
  {
    RsCode(d => Repeat(Padded(d, k), 2 * t + 1), (y: Bytes, preLen: nat) => RepetitionDecode(y, t, preLen))
  }

  // The copies of symbol i number r, and are the places j with j / r == i.
  lemma Copies(n: nat, r: nat, i: nat)
    requires r > 0 && i < n
    ensures |set j: nat | j < n * r && j / r == i| == r
  {
    MulMono(i + 1, n, r);
    assert (i + 1) * r == i * r + r;
    var copies := set j: nat | j < n * r && j / r == i;
    var range := Interval(i * r, r);
    forall j: nat ensures j in copies <==> j in range {
      DivModFacts(j, r);
      if j in range {
        DivModUnique(j, r, i, j - i * r);
      }
    }
    assert copies == range;
  }

  // With at most t of the 2t+1 copies wrong, the true symbol is elected.
  lemma MajorityWins(y: Bytes, t: nat, n: nat, i: nat, v: byte, wrong: set<nat>)
    requires |y| == n * (2 * t + 1) && i < n && |wrong| <= t
    requires forall j: nat :: j < |y| && j / (2 * t + 1) == i && y[j] != v ==> j in wrong
    ensures Elected(y, 2 * t + 1, t, i) == v
  {
    var r := 2 * t + 1;
    var copies := set j: nat | j < n * r && j / r == i;
    Copies(n, r, i);
    var votes := Votes(y, r, i, v);
    SubsetSize(copies, votes + wrong);
    assert |votes + wrong| <= |votes| + |wrong|;
    forall u | u != v && |Votes(y, r, i, u)| > t ensures false {
      assert Votes(y, r, i, u) <= wrong;
      SubsetSize(Votes(y, r, i, u), wrong);
    }
  }

  // Symbol i's copies lie in codeword i / k.
  lemma {:induction false} CopyInCodeword(k: nat, r: nat, j: nat)
    requires k > 0 && r > 0
    ensures k * r > 0 && j / (k * r) == j / r / k
  {
    var i := j / r;
    DivModFacts(j, r);
    DivModFacts(i, k);
    var c, m := i / k, i % k;
    MulMono(m + 1, k, r);
    assert (m + 1) * r == m * r + r && k * r >= r;
    assert i * r == (c * k + m) * r == c * (k * r) + m * r;
    DivModUnique(j, k * r, c, m * r + j % r);
  }

  lemma {:induction false} RepetitionCorrects(k: nat, t: nat, n: nat)
    requires k > 0 && n == k * (2 * t + 1) && n > 0
    ensures Corrects(RepetitionCode(k, t), k, n, t)
  {
    forall d: Bytes ensures |RepetitionCode(k, t).encode(d)| == CeilDiv(|d|, k) * n {
      RepetitionLength(k, t, n, d);
    }
    forall d: Bytes, y: Bytes, preLen: nat ensures CorrectsAt(RepetitionCode(k, t), k, n, t, d, y, preLen) {
      RepetitionCorrectsAt(k, t, n, d, y, preLen);
    }
  }

  lemma {:induction false} RepetitionLength(k: nat, t: nat, n: nat, d: Bytes)
    requires k > 0 && n == k * (2 * t + 1)
    ensures |RepetitionCode(k, t).encode(d)| == CeilDiv(|d|, k) * n
  {
    var m, r := CeilDiv(|d|, k), 2 * t + 1;
    assert m * k * r == m * (k * r);
  }

  lemma {:induction false} RepetitionCorrectsAt(k: nat, t: nat, n: nat, d: Bytes, y: Bytes, preLen: nat)
    requires k > 0 && n == k * (2 * t + 1) && n > 0
    ensures CorrectsAt(RepetitionCode(k, t), k, n, t, d, y, preLen)
  {
    var p := Padded(d, k);
    DivModUnique(|p|, k, CeilDiv(|d|, k), 0);
    if WithinCapacity(Repeat(p, 2 * t + 1), y, n, t) && preLen <= |p| {
      RepetitionReads(k, t, n, p, y, preLen);
    }
  }

  lemma RepetitionReads(k: nat, t: nat, n: nat, p: Bytes, y: Bytes, preLen: nat)
    requires k > 0 && n == k * (2 * t + 1) && n > 0 && preLen <= |p| && |p| % k == 0
    requires WithinCapacity(Repeat(p, 2 * t + 1), y, n, t)
    ensures RepetitionDecode(y, t, preLen) == Success(p[..preLen])
  {
    MulMono(preLen, |p|, 2 * t + 1);
    forall i | 0 <= i < preLen ensures Elected(y, 2 * t + 1, t, i) == p[i] {
      SymbolElected(k, t, p, y, i);
    }
    assert |y| == |p| * (2 * t + 1);
    assert RepetitionDecode(y, t, preLen).value == p[..preLen];
  }

  lemma SymbolElected(k: nat, t: nat, p: Bytes, y: Bytes, i: nat)
    requires k > 0 && k * (2 * t + 1) > 0 && i < |p| && |p| % k == 0
    requires WithinCapacity(Repeat(p, 2 * t + 1), y, k * (2 * t + 1), t)
    ensures Elected(y, 2 * t + 1, t, i) == p[i]
  {
    var r := 2 * t + 1;
    var sent, c := Repeat(p, r), i / k;
    var wrong := ErrorsIn(sent, y, k * r, c);
    CodewordCount(k, r, |p|, i);
    forall j: nat | j < |y| && j / r == i && y[j] != p[i] ensures j in wrong {
      CopyInCodeword(k, r, j);
      assert sent[j] == p[i];
    }
    MajorityWins(y, t, |p|, i, p[i], wrong);
  }

  lemma {:induction false} CodewordCount(k: nat, r: nat, n: nat, i: nat)
    requires k > 0 && r > 0 && i < n && n % k == 0
    ensures k * r > 0 && i / k < n * r / (k * r)
  {
    MulMono(1, k, r);
    DivModFacts(n, k);
    DivModFacts(i, k);
    var m := n / k;
    assert n * r == m * k * r == m * (k * r);
    DivModUnique(n * r, k * r, m, 0);
    if i / k >= m {
      MulMono(m, i / k, k);
    }
  }

  // ----- Inner code: the block twice, then two zero bytes -----

  function PlainDecode(bits: nat, b: Bytes, nbits: nat): Result<Bytes, BlockError> {
    if |b| < MIN_CHUNK_BODY || |b| % 2 != 0 || nbits != CodedNbits(|b|) then Failure(LengthMismatch)
    else if 8 * InfoLen(|b|) > bits then Failure(InputTooLong)
    else Success(b[..InfoLen(|b|)])
  }

  function PlainCode(): InnerCode {
    InnerCode(
      c => if 8 * |c| <= MAX_SUPPORTED_INFO_BITS then Success(c + c + [0, 0]) else Failure(InputTooLong),
      bits => bits <= MAX_SUPPORTED_INFO_BITS,
      PlainDecode)
  }

  lemma PlainInverts(c: Bytes, bits: nat)
    ensures InvertsAt(PlainCode(), c, bits)
  {
    if c != [] && 8 * |c| <= bits <= MAX_SUPPORTED_INFO_BITS {
      var coded := c + c + [0, 0];
      assert PlainCode().encodeBlock(c) == Success(coded);
      assert InfoLen(|coded|) == |c| && CodedNbits(|coded|) == 2 * (8 * |c| + 6);
      assert coded[..|c|] == c;
    }
  }

  lemma {:induction false} PlainCodeLawful()
    ensures Lawful(PlainCode())
  {
    forall c: Bytes, bits: nat ensures InvertsAt(PlainCode(), c, bits) {
      PlainInverts(c, bits);
    }
    assert KeepsLength(PlainCode());
    assert EncodesUnderCap(PlainCode());
  }

  // ----- Text: one character a byte, padded with '=' -----

  function ByteToChar(b: byte): char {
    (b as int + 256) as char
  }

  function TextEncode(b: Bytes): string {
    seq(|b|, i requires 0 <= i < |b| => ByteToChar(b[i])) + seq(4 * CeilDiv(|b|, 3) - |b|, _ => '=')
  }

  function TextDecode(s: string): (b: Option<Bytes>)
    decreases |s|
  {
    if s == [] || s[0] == '=' then Some([])
    else
      var code := s[0] as int - 256;
      if !(0 <= code < 256) then None
      else
        match TextDecode(s[1..])
        case None => None
        case Some(rest) => Some([code as byte] + rest)
  }

  lemma {:induction false} TextDecodesPrefix(b: Bytes, pad: string)
    requires forall i :: 0 <= i < |pad| ==> pad[i] == '='
    ensures TextDecode(seq(|b|, i requires 0 <= i < |b| => ByteToChar(b[i])) + pad) == Some(b)
    decreases |b|
  {
    var s := seq(|b|, i requires 0 <= i < |b| => ByteToChar(b[i])) + pad;
    if b != [] {
      var rest := b[1..];
      TextDecodesPrefix(rest, pad);
      assert s[1..] == seq(|rest|, i requires 0 <= i < |rest| => ByteToChar(rest[i])) + pad;
      assert b == [b[0]] + rest;
    }
  }

  lemma {:induction false} TextLawful()
    ensures LawfulBase64(Base64(TextEncode, TextDecode))
  {
    forall b: Bytes ensures TextDecode(TextEncode(b)) == Some(b) && |TextEncode(b)| == 4 * CeilDiv(|b|, 3) {
      TextDecodesPrefix(b, seq(4 * CeilDiv(|b|, 3) - |b|, _ => '='));
    }
  }

  // ----- Keystream -----

  lemma ZeroStreamLively()
    ensures Lively(_ => 0)
  {
    var ks: Stream := _ => 0;
    forall i: nat ensures LowWordAhead(ks, i) {
      assert Word(ks, i) < TWO31;
    }
  }

  // Liveliness is more than a window needs: with all bits set every word is
  // refused for three places, but accepted for two.
  lemma OnesDrawTwo()
    ensures Drawable(_ => 255, 2, 0) && !Drawable(_ => 255, 3, 0) && !Lively(_ => 255)
  {
    var ks: Stream := _ => 255;
    assert forall i: nat :: Word(ks, i) == TWO32 - 1;
    assert Accepts(ks, 2, 0) && !LowWordAhead(ks, 0);
    assert !AcceptAhead(ks, 3, 0);
  }
}
