// What channel damage does to the concatenated stack as a whole.

module EndToEnd {
  import opened Format
  import opened ReedSolomon
  import opened ViterbiFraming
  import opened ViterbiCodec
  import opened Windows
  import opened Interleaver
  import opened Burst
  import opened KeyedBurst
  import opened Fec

  // What a burst can cost a codeword of window w: spread over the window's
  // codewords by the block order, at worst all in one after the keyed layer.
  function WorstErrors(keyed: bool, depth: nat, n: nat, w: nat, lo: nat, hi: nat): nat
    requires RowsInWindow(depth, n, w) >= 1
  {
    var share := ShareOf(depth, w, lo, hi);
    if keyed then Min(share, RS_BLOCK) else CeilDiv(share, RowsInWindow(depth, n, w))
  }

  ghost predicate ShareCorrectable(keyed: bool, depth: nat, n: nat, lo: nat, hi: nat, w: nat) {
    RowsInWindow(depth, n, w) >= 1 ==> WorstErrors(keyed, depth, n, w, lo, hi) <= RS_CORRECTS
  }

  ghost predicate SurvivableIn(keyed: bool, depth: nat, n: nat, lo: nat, hi: nat)
    requires depth >= 1
  {
    forall c: nat :: c < n / RS_BLOCK ==> ShareCorrectable(keyed, depth, n, lo, hi, WindowOf(depth, c))
  }

  // Every codeword's share of the burst is within the outer code's reach.
  ghost predicate Survivable(il: Interleaver, n: nat, lo: nat, hi: nat)
    requires il.Valid()
  {
    SurvivableIn(il.BlockThenCsprng?, il.block.depth, n, lo, hi)
  }

  // A blob of the right length that the inner decoder turns into symbols within
  // the outer code's reach.
  ghost predicate Correctable(f: Stack, data: Bytes, received: Bytes)
    requires f.Valid() && f.il.Serves(RsLen(|data|))
  {
    && |received| == CodedLen(RsLen(|data|)) <= MAX_BLOB_LEN
    && DecodeStream(f.inner, received).Success?
    && var stream := DecodeStream(f.inner, received).value;
    && |stream| == RsLen(|data|)
    && WithinCapacity(f.rs.encode(data), f.il.Deinterleave(stream), RS_BLOCK, RS_CORRECTS)
  }

  // The gate derives the stream's length, and decoding at preLen gives the data,
  // padded as far as preLen asks.
  ghost predicate Recovered(f: Stack, data: Bytes, received: Bytes, preLen: nat)
    requires f.Valid() && f.il.Serves(RsLen(|data|)) && preLen <= CeilDiv(|data|, RS_DATA) * RS_DATA
  {
    && ValidatePreFec(received) == Success(RsLen(|data|))
    && f.Decode(received, preLen) == Success(Padded(data, RS_DATA)[..preLen])
  }

  // It decodes to the padded data at every admissible length, the gate's included.
  lemma {:induction false} CorrectableDecodes(f: Stack, data: Bytes, received: Bytes, preLen: nat)
    requires f.Valid() && f.il.Serves(RsLen(|data|)) && data != []
    requires Correctable(f, data, received) && preLen <= CeilDiv(|data|, RS_DATA) * RS_DATA
    ensures Recovered(f, data, received, preLen)
  {
    GateByLength(received, |data|);
    hide DecodeStream, Interleaver.Serves, Interleaver.Deinterleave, Lawful, RsLen, WithinCapacity, ValidatePreFec;
    StackRecovers(f, data, received, DecodeStream(f.inner, received).value, preLen);
  }

  lemma {:induction false} GateByLength(received: Bytes, n: nat)
    requires n > 0 && |received| == CodedLen(RsLen(n)) <= MAX_BLOB_LEN
    ensures ValidatePreFec(received) == Success(RsLen(n))
  {
    FramingExact(|received|, RsLen(n));
    RsLenBlocks(n);
  }

  // The received blob has the sent one's length, and its inner decoding differs
  // from the interleaved stream at most inside [lo, hi).
  ghost predicate BurstOn(f: Stack, data: Bytes, received: Bytes, lo: nat, hi: nat)
    requires f.Valid() && f.il.Serves(RsLen(|data|))
  {
    && |received| == |StackEncode(f, data)| <= MAX_BLOB_LEN
    && DecodeStream(f.inner, received).Success?
    && DamagedWithin(f.il.Interleave(f.rs.encode(data)), DecodeStream(f.inner, received).value, lo, hi)
  }

  // One survivable burst in the inner decoder's output is correctable damage.
  lemma {:induction false} BurstCorrectable(f: Stack, data: Bytes, received: Bytes, lo: nat, hi: nat)
    requires f.Valid() && f.il.Serves(RsLen(|data|))
    requires BurstOn(f, data, received, lo, hi) && Survivable(f.il, RsLen(|data|), lo, hi)
    ensures Correctable(f, data, received)
  {
    hide DecodeStream, Lawful, RsLen, CodedLen, Survivable, WithinCapacity;
    hide Interleaver.Interleave, Interleaver.Deinterleave, Interleaver.Serves, StackEncode;
    StackLength(f, data);
    RsLenBlocks(|data|);
    SpreadWithinCapacity(f.il, f.rs.encode(data), DecodeStream(f.inner, received).value, lo, hi);
  }

  // A received blob whose inner decoding is wrong only inside one survivable
  // burst of the interleaved stream still decodes to the exact data.
  lemma {:induction false} BurstCorrected(f: Stack, data: Bytes, received: Bytes, lo: nat, hi: nat, preLen: nat)
    requires f.Valid() && f.il.Serves(RsLen(|data|))
    requires data != [] && preLen <= CeilDiv(|data|, RS_DATA) * RS_DATA
    requires BurstOn(f, data, received, lo, hi) && Survivable(f.il, RsLen(|data|), lo, hi)
    ensures Recovered(f, data, received, preLen)
  {
    hide Correctable, Recovered, Survivable, BurstOn, Interleaver.Serves;
    BurstCorrectable(f, data, received, lo, hi);
    CorrectableDecodes(f, data, received, preLen);
  }

  lemma {:induction false} SpreadWithinCapacity(il: Interleaver, s: Bytes, z: Bytes, lo: nat, hi: nat)
    requires il.Valid() && il.Serves(|s|) && |s| % RS_BLOCK == 0
    requires DamagedWithin(il.Interleave(s), z, lo, hi) && Survivable(il, |s|, lo, hi)
    ensures WithinCapacity(s, il.Deinterleave(z), RS_BLOCK, RS_CORRECTS)
  {
    hide Interleaver.Interleave, Interleaver.Deinterleave, Interleaver.Serves, WindowOf, RowsInWindow;
    hide ErrorsIn, ShareOf, CeilDiv;
    forall c: nat | c < |s| / RS_BLOCK
      ensures |ErrorsIn(s, il.Deinterleave(z), RS_BLOCK, c)| <= RS_CORRECTS
    {
      WindowHasRows(il.block.depth, |s|, c);
      assert ShareCorrectable(il.BlockThenCsprng?, il.block.depth, |s|, lo, hi, WindowOf(il.block.depth, c));
      if il.Block? {
        BurstSpread(il.block, s, z, lo, hi, c);
      } else {
        ShareBounds(il, s, z, lo, hi, c);
      }
    }
  }

  lemma {:induction false} WindowHasRows(depth: nat, n: nat, c: nat)
    requires depth >= 1 && n % RS_BLOCK == 0 && c < n / RS_BLOCK
    ensures RowsInWindow(depth, n, WindowOf(depth, c)) >= 1
  {
    WindowOfSymbol(depth, n, c * RS_BLOCK);
  }

  // When every symbol of the burst is wrong, survivable is also necessary.
  lemma {:induction false} SurvivableExact(block: BlockInterleaver, s: Bytes, z: Bytes, lo: nat, hi: nat)
    requires block.Valid() && |s| % RS_BLOCK == 0
    requires DamagedWithin(Block(block).Interleave(s), z, lo, hi)
    requires DamagedThroughout(Block(block).Interleave(s), z, lo, hi)
    ensures WithinCapacity(s, Block(block).Deinterleave(z), RS_BLOCK, RS_CORRECTS)
            <==> Survivable(Block(block), |s|, lo, hi)
  {
    hide Interleaver.Interleave, Interleaver.Deinterleave, DamagedWithin, DamagedThroughout, ErrorsIn;
    if Survivable(Block(block), |s|, lo, hi) {
      SpreadWithinCapacity(Block(block), s, z, lo, hi);
    } else {
      var c: nat :| c < |s| / RS_BLOCK && !ShareCorrectable(false, block.depth, |s|, lo, hi, WindowOf(block.depth, c));
      BurstAttained(block, s, z, lo, hi, WindowOf(block.depth, c));
    }
  }

  // No keystream and no damage inside the burst takes a codeword out of reach.
  ghost predicate Harmless(layer: CsprngLayer, block: BlockInterleaver, s: Bytes, z: Bytes, lo: nat, hi: nat)
    requires block.Valid() && layer.Valid()
  {
    var il := BlockThenCsprng(block, layer);
    il.Serves(|s|) && DamagedWithin(il.Interleave(s), z, lo, hi) ==>
      WithinCapacity(s, il.Deinterleave(z), RS_BLOCK, RS_CORRECTS)
  }

  // Every symbol of [lo, hi) changed, and no other.
  function Flip(a: Bytes, lo: nat, hi: nat): (b: Bytes)
    ensures DamagedWithin(a, b, lo, hi)
    ensures hi <= |a| ==> DamagedThroughout(a, b, lo, hi)
  {
    seq(|a|, x requires 0 <= x < |a| => if lo <= x < hi then (if a[x] == 0 then 1 else 0) else a[x])
  }

  // With the keyed layer the survivable bursts are those that no keystream
  // turns against a codeword.
  lemma {:induction false} KeyedSurvivableExact(
    block: BlockInterleaver, seed: Bytes, s: Bytes, lo: nat, hi: nat)
    requires block.Valid() && |seed| == KEY_LEN && |s| % RS_BLOCK == 0 && hi <= |s|
    ensures (forall chacha: StreamCipher, z: Bytes :: Harmless(CsprngLayer(seed, chacha), block, s, z, lo, hi))
            <==> SurvivableIn(true, block.depth, |s|, lo, hi)
  {
    if SurvivableIn(true, block.depth, |s|, lo, hi) {
      forall chacha: StreamCipher, z: Bytes ensures Harmless(CsprngLayer(seed, chacha), block, s, z, lo, hi) {
        KeyedBurstHarmless(block, CsprngLayer(seed, chacha), s, z, lo, hi);
      }
    } else {
      var c: nat :| c < |s| / RS_BLOCK && !ShareCorrectable(true, block.depth, |s|, lo, hi, WindowOf(block.depth, c));
      AdverseHarms(block, seed, s, lo, hi, c);
    }
  }

  lemma {:induction false} KeyedBurstHarmless(
    block: BlockInterleaver, layer: CsprngLayer, s: Bytes, z: Bytes, lo: nat, hi: nat)
    requires block.Valid() && layer.Valid() && |s| % RS_BLOCK == 0 && SurvivableIn(true, block.depth, |s|, lo, hi)
    ensures Harmless(layer, block, s, z, lo, hi)
  {
    hide Interleaver.Interleave, Interleaver.Deinterleave, Interleaver.Serves, SurvivableIn;
    hide DamagedWithin, WithinCapacity;
    var il := BlockThenCsprng(block, layer);
    if il.Serves(|s|) && DamagedWithin(il.Interleave(s), z, lo, hi) {
      SpreadWithinCapacity(il, s, z, lo, hi);
    }
  }

  lemma {:induction false} AdverseHarms(
    block: BlockInterleaver, seed: Bytes, s: Bytes, lo: nat, hi: nat, c: nat)
    requires block.Valid() && |seed| == KEY_LEN && |s| % RS_BLOCK == 0 && hi <= |s| && c < |s| / RS_BLOCK
    requires !ShareCorrectable(true, block.depth, |s|, lo, hi, WindowOf(block.depth, c))
    ensures exists chacha: StreamCipher, z: Bytes :: !Harmless(CsprngLayer(seed, chacha), block, s, z, lo, hi)
  {
    hide Interleaver.Interleave, Interleaver.Deinterleave, Interleaver.Serves, Adverse, ShareOf, WindowOf, RowsInWindow;
    hide ErrorsIn, DamagedWithin, DamagedThroughout, Flip;
    var il := Adverse(block.depth, seed, |s|, c, lo, hi);
    var z := Flip(il.Interleave(s), lo, hi);
    ShareAttained(block.depth, seed, s, z, lo, hi, c);
    assert il == BlockThenCsprng(block, CsprngLayer(seed, il.csprng.chacha));
    assert !Harmless(CsprngLayer(seed, il.csprng.chacha), block, s, z, lo, hi);
  }

  // Over full windows any burst of up to 16 * depth symbols is survivable.
  lemma {:induction false} FullWindowsSurvive(block: BlockInterleaver, n: nat, lo: nat, hi: nat)
    requires block.Valid() && n % block.WindowLen() == 0
    requires hi <= lo + RS_CORRECTS * block.depth
    ensures Survivable(Block(block), n, lo, hi)
  {
    forall c: nat | c < n / RS_BLOCK
      ensures ShareCorrectable(false, block.depth, n, lo, hi, WindowOf(block.depth, c))
    {
      RowsOfFullWindow(block.depth, n, c);
      QuotientBound(block.depth, WindowOf(block.depth, c), lo, hi, block.depth, RS_CORRECTS);
    }
  }

  // With p codewords in a short last window, 16 * p symbols survive anywhere.
  lemma {:induction false} ShortWindowSurvives(block: BlockInterleaver, n: nat, p: nat, lo: nat, hi: nat)
    requires block.Valid() && n % RS_BLOCK == 0
    requires forall c: nat :: c < n / RS_BLOCK ==> p <= RowsInWindow(block.depth, n, WindowOf(block.depth, c))
    requires hi <= lo + RS_CORRECTS * p
    ensures Survivable(Block(block), n, lo, hi)
  {
    forall c: nat | c < n / RS_BLOCK
      ensures ShareCorrectable(false, block.depth, n, lo, hi, WindowOf(block.depth, c))
    {
      var w := WindowOf(block.depth, c);
      var rows := RowsInWindow(block.depth, n, w);
      if rows >= 1 {
        QuotientBound(block.depth, w, lo, hi, rows, RS_CORRECTS);
      }
    }
  }

  // Up to 16 symbols survive anywhere, whatever the payload's length, the depth,
  // the strategy and the seed.
  lemma {:induction false} SixteenSymbolsSurvive(il: Interleaver, n: nat, lo: nat, hi: nat)
    requires il.Valid() && n % RS_BLOCK == 0 && hi <= lo + RS_CORRECTS
    ensures Survivable(il, n, lo, hi)
  {
    if il.Block? {
      forall c: nat | c < n / RS_BLOCK ensures 1 <= RowsInWindow(il.block.depth, n, WindowOf(il.block.depth, c)) {
        WindowHasRows(il.block.depth, n, c);
      }
      ShortWindowSurvives(il.block, n, 1, lo, hi);
    }
  }

  lemma {:induction false} SixteenSymbolsCorrected(
    f: Stack, data: Bytes, received: Bytes, lo: nat, hi: nat, preLen: nat)
    requires f.Valid() && f.il.Serves(RsLen(|data|))
    requires data != [] && preLen <= CeilDiv(|data|, RS_DATA) * RS_DATA
    requires BurstOn(f, data, received, lo, hi) && hi <= lo + RS_CORRECTS
    ensures Recovered(f, data, received, preLen)
  {
    hide Recovered, Survivable, BurstOn, Interleaver.Serves;
    RsLenBlocks(|data|);
    SixteenSymbolsSurvive(f.il, RsLen(|data|), lo, hi);
    BurstCorrected(f, data, received, lo, hi, preLen);
  }

  // The same, for a burst on the symbols between interleaver and inner code.
  lemma {:induction false} SymbolBurstCorrected(f: Stack, data: Bytes, z: Bytes, lo: nat, hi: nat, preLen: nat)
    requires f.Valid() && f.il.Serves(RsLen(|data|))
    requires data != [] && preLen <= CeilDiv(|data|, RS_DATA) * RS_DATA && CodedLen(RsLen(|data|)) <= MAX_BLOB_LEN
    requires DamagedWithin(f.il.Interleave(f.rs.encode(data)), z, lo, hi) && Survivable(f.il, RsLen(|data|), lo, hi)
    ensures Recovered(f, data, EncodeStream(f.inner, z), preLen)
  {
    hide EncodeStream, DecodeStream, Lawful, CodedLen, RsLen, Survivable, Recovered;
    hide Interleaver.Interleave, Interleaver.Serves, StackEncode;
    StackLength(f, data);
    EncodedLength(f.inner, z);
    CodecRoundTrip(f.inner, z);
    BurstCorrected(f, data, EncodeStream(f.inner, z), lo, hi, preLen);
  }

  // A stream of whole windows survives any burst of up to 16 * depth symbols.
  lemma {:induction false} SixteenDepthsCorrected(
    f: Stack, data: Bytes, received: Bytes, lo: nat, hi: nat, preLen: nat)
    requires f.Valid() && f.il.Block? && data != [] && preLen <= CeilDiv(|data|, RS_DATA) * RS_DATA
    requires BurstOn(f, data, received, lo, hi)
    requires RsLen(|data|) % f.il.block.WindowLen() == 0 && hi <= lo + 16 * f.il.block.depth
    ensures Recovered(f, data, received, preLen)
  {
    FullWindowsSurvive(f.il.block, RsLen(|data|), lo, hi);
    BurstCorrected(f, data, received, lo, hi, preLen);
  }

  // ----- One destroyed sub-block -----

  // Whole windows around [lo, hi).
  function WindowsFrom(win: nat, lo: nat): nat
    requires win > 0
  {
    DivModFacts(lo, win);
    lo / win * win
  }

  function WindowsTo(win: nat, hi: nat): nat
    requires win > 0
  {
    CeilDiv(hi, win) * win
  }

  // De-interleaving moves no byte out of its window.
  lemma {:induction false} DeinterleaveContains(win: nat, order: Order, a: Bytes, b: Bytes, lo: nat, hi: nat)
    requires win > 0 && Permutes(win, |a|, order) && DamagedWithin(a, b, lo, hi)
    ensures DamagedWithin(Deinterleaved(win, order, a), Deinterleaved(win, order, b),
                          WindowsFrom(win, lo), WindowsTo(win, hi))
  {
    forall j | 0 <= j < |a| && !(WindowsFrom(win, lo) <= j < WindowsTo(win, hi))
      ensures Deinterleaved(win, order, a)[j] == Deinterleaved(win, order, b)[j]
    {
      var x := TargetIndex(win, order, |a|, j);
      SameWindowOutside(win, lo, hi, j, x);
    }
  }

  lemma {:induction false} SameWindowOutside(win: nat, lo: nat, hi: nat, j: nat, x: nat)
    requires win > 0 && j / win == x / win
    requires !(WindowsFrom(win, lo) <= j < WindowsTo(win, hi))
    ensures !(lo <= x < hi)
  {
    DivModFacts(j, win);
    DivModFacts(x, win);
    DivModFacts(lo, win);
    var w := j / win;
    assert (w + 1) * win == w * win + win;
    if j < WindowsFrom(win, lo) && lo <= x {
      if w >= lo / win {
        MulMono(lo / win, w, win);
      }
      MulMono(w + 1, lo / win, win);
    }
    if WindowsTo(win, hi) <= j && x < hi {
      if w < CeilDiv(hi, win) {
        MulMono(w + 1, CeilDiv(hi, win), win);
      }
      MulMono(CeilDiv(hi, win), w, win);
    }
  }

  lemma WindowsIdempotent(win: nat, m: nat)
    requires win > 0
    ensures WindowsFrom(win, m * win) == WindowsTo(win, m * win) == m * win
  {
  }

  // Corruption confined to coded sub-block i reaches, after de-interleaving, only
  // the windows that sub-block's bytes belong to. Both interleavers, any depth.
  lemma SubBlockDamage(f: Stack, y: Bytes, z: Bytes, i: nat, a: Bytes, b: Bytes)
    requires f.il.Valid() && KeepsLength(f.inner) && i * FULL_CHUNK_BODY < |y|
    requires DamagedWithin(y, z, i * FULL_CHUNK_BODY, (i + 1) * FULL_CHUNK_BODY)
    requires DecodeStream(f.inner, y) == Success(a) && DecodeStream(f.inner, z) == Success(b)
    requires f.il.Serves(|a|) && f.il.Serves(|b|)
    ensures DamagedInWindows(f.il.block.WindowLen(), i, f.il.Deinterleave(a), f.il.Deinterleave(b))
  {
    DamageContained(f.inner, y, z, i);
    InterleaverContains(f.il, a, b, i * VITERBI_CHUNK, (i + 1) * VITERBI_CHUNK);
  }

  // The streams differ only in the windows that overlap sub-block i.
  ghost predicate DamagedInWindows(win: nat, i: nat, a: Bytes, b: Bytes)
    requires win > 0
  {
    DamagedWithin(a, b, WindowsFrom(win, i * VITERBI_CHUNK), WindowsTo(win, (i + 1) * VITERBI_CHUNK))
  }

  lemma {:induction false} InterleaverContains(il: Interleaver, a: Bytes, b: Bytes, lo: nat, hi: nat)
    requires il.Valid() && il.Serves(|a|) && DamagedWithin(a, b, lo, hi)
    ensures DamagedWithin(il.Deinterleave(a), il.Deinterleave(b),
                          WindowsFrom(il.block.WindowLen(), lo), WindowsTo(il.block.WindowLen(), hi))
  {
    var win := il.block.WindowLen();
    BlockPermutes(win, |a|);
    if il.Block? {
      DeinterleaveContains(win, BlockOrderOf(), a, b, lo, hi);
    } else {
      var keyed := KeyedOrderOf(il.csprng);
      KeyedPermutes(il.csprng, win, |a|);
      DeinterleaveContains(win, keyed, a, b, lo, hi);
      DeinterleaveContains(win, BlockOrderOf(), Deinterleaved(win, keyed, a), Deinterleaved(win, keyed, b),
                           WindowsFrom(win, lo), WindowsTo(win, hi));
      DivModFacts(lo, win);
      WindowsIdempotent(win, lo / win);
      WindowsIdempotent(win, CeilDiv(hi, win));
    }
  }

  // When the depth divides 490, as the default 5 does, sub-blocks are whole
  // windows and only the 490 codewords carried by sub-block i can differ.
  lemma SubBlockDamageAligned(f: Stack, y: Bytes, z: Bytes, i: nat, c: nat, a: Bytes, b: Bytes)
    requires f.il.Valid() && KeepsLength(f.inner) && 490 % f.il.block.depth == 0 && i * FULL_CHUNK_BODY < |y|
    requires DamagedWithin(y, z, i * FULL_CHUNK_BODY, (i + 1) * FULL_CHUNK_BODY)
    requires DecodeStream(f.inner, y) == Success(a) && DecodeStream(f.inner, z) == Success(b)
    requires f.il.Serves(|a|) && f.il.Serves(|b|) && !(490 * i <= c < 490 * (i + 1))
    ensures |a| == |b| && ErrorsIn(f.il.Deinterleave(a), f.il.Deinterleave(b), RS_BLOCK, c) == {}
  {
    hide DecodeStream, Interleaver.Deinterleave, WindowsFrom, WindowsTo, DamagedWithin, Interleaver.Serves;
    SubBlockDamage(f, y, z, i, a, b);
    ChunkIsWindows(f.il.block.depth, i);
    ChunkIsWindows(f.il.block.depth, i + 1);
    NoErrorsOutside(f.il.Deinterleave(a), f.il.Deinterleave(b), i, c);
  }

  const DEFAULT_INTERLEAVE_DEPTH: nat := 5

  function DefaultStack(rs: RsCode, inner: InnerCode): (f: Stack)
    ensures f.il.Valid() && f.ServesReach()
    ensures f.il.Block? && f.il.block.WindowLen() == 1275
  {
    Stack(rs, Block(BlockInterleaver(DEFAULT_INTERLEAVE_DEPTH)), inner)
  }

  // Its windows hold five codewords, 1275 bytes: over whole ones it corrects any
  // burst of up to 80 symbols.
  lemma {:induction false} DefaultBurstCorrected(
    rs: RsCode, inner: InnerCode, data: Bytes, received: Bytes, lo: nat, hi: nat, preLen: nat)
    requires LawfulRs(rs) && Lawful(inner)
    requires data != [] && preLen <= CeilDiv(|data|, RS_DATA) * RS_DATA
    requires BurstOn(DefaultStack(rs, inner), data, received, lo, hi)
    requires RsLen(|data|) % 1275 == 0 && hi <= lo + 80
    ensures Recovered(DefaultStack(rs, inner), data, received, preLen)
  {
    SixteenDepthsCorrected(DefaultStack(rs, inner), data, received, lo, hi, preLen);
  }

  // The stack that the library wires by default.
  lemma DefaultSubBlockDamage(rs: RsCode, inner: InnerCode, y: Bytes, z: Bytes, i: nat, c: nat, a: Bytes, b: Bytes)
    requires KeepsLength(inner) && i * FULL_CHUNK_BODY < |y|
    requires DamagedWithin(y, z, i * FULL_CHUNK_BODY, (i + 1) * FULL_CHUNK_BODY)
    requires DecodeStream(inner, y) == Success(a) && DecodeStream(inner, z) == Success(b)
    requires !(490 * i <= c < 490 * (i + 1))
    ensures var f := DefaultStack(rs, inner);
            |a| == |b| && ErrorsIn(f.il.Deinterleave(a), f.il.Deinterleave(b), RS_BLOCK, c) == {}
  {
    SubBlockDamageAligned(DefaultStack(rs, inner), y, z, i, c, a, b);
  }

  lemma NoErrorsOutside(a: Bytes, b: Bytes, i: nat, c: nat)
    requires DamagedWithin(a, b, i * VITERBI_CHUNK, (i + 1) * VITERBI_CHUNK)
    requires !(490 * i <= c < 490 * (i + 1))
    ensures |a| == |b| && ErrorsIn(a, b, RS_BLOCK, c) == {}
  {
  }

  lemma {:induction false} ChunkIsWindows(depth: nat, i: nat)
    requires depth >= 1 && 490 % depth == 0
    ensures WindowsFrom(depth * RS_BLOCK, i * VITERBI_CHUNK) == i * VITERBI_CHUNK
    ensures WindowsTo(depth * RS_BLOCK, i * VITERBI_CHUNK) == i * VITERBI_CHUNK
  {
    var m := 490 / depth;
    DivModFacts(490, depth);
    assert i * VITERBI_CHUNK == i * (m * depth * RS_BLOCK) == i * m * (depth * RS_BLOCK);
    WindowsIdempotent(depth * RS_BLOCK, i * m);
  }
}
