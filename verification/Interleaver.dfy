// The block interleaver, the keyed layer and their composition
// (src/fec/interleaver.rs): loops over buffers, refining windowed permutations.

module Interleaver {
  import opened Format
  import opened LittleEndian
  import opened Permutations
  import opened BlockOrder
  import opened Keystream
  import opened FisherYates
  import opened Windows

  datatype BlockInterleaver = BlockInterleaver(depth: nat) {
    predicate Valid() {
      1 <= depth <= RS_INTERLEAVE_MAX
    }

    function WindowLen(): nat {
      depth * RS_BLOCK
    }

    method InterleaveInto(stream: Bytes) returns (out: array<byte>)
      requires Valid()
      ensures fresh(out)
      ensures out[..] == (BlockPermutes(WindowLen(), |stream|); Interleaved(WindowLen(), BlockOrderOf(), stream))
    {
      BlockPermutes(WindowLen(), |stream|);
      out := new byte[|stream|](_ => 0);
      var win := WindowLen();
      var base := 0;
      ghost var w := 0;
      while base < |stream|
        invariant AtWindow(win, |stream|, w, base)
        invariant out[..base] == Interleaved(win, BlockOrderOf(), stream)[..base]
      {
        var filled := Min(|stream| - base, win);
        var perm := WindowOrder(depth, filled);
        GatherNext(stream, base, perm, out, win, BlockOrderOf(), w);
        base := base + filled;
        w := w + 1;
      }
    }

    method DeinterleaveInto(stream: Bytes) returns (out: array<byte>)
      requires Valid()
      ensures fresh(out)
      ensures out[..] == (BlockPermutes(WindowLen(), |stream|); Deinterleaved(WindowLen(), BlockOrderOf(), stream))
    {
      BlockPermutes(WindowLen(), |stream|);
      out := new byte[|stream|](_ => 0);
      var win := WindowLen();
      var base := 0;
      ghost var w := 0;
      while base < |stream|
        invariant AtWindow(win, |stream|, w, base)
        invariant out[..base] == Deinterleaved(win, BlockOrderOf(), stream)[..base]
      {
        var filled := Min(|stream| - base, win);
        var perm := WindowOrder(depth, filled);
        ScatterNext(stream, base, perm, out, win, BlockOrderOf(), w);
        base := base + filled;
        w := w + 1;
      }
    }
  }

  function NewBlockInterleaver(depth: nat): (r: Res<BlockInterleaver>)
    ensures r.Success? <==> 1 <= depth <= RS_INTERLEAVE_MAX
    ensures r.Success? ==> r.value.Valid() && r.value.depth == depth
    ensures r.Failure? ==> r.error == InvalidInput
  {
    if 1 <= depth <= RS_INTERLEAVE_MAX then Success(BlockInterleaver(depth)) else Failure(InvalidInput)
  }

  // The block order looks at the filled length only.
  function BlockOrderOf(): Order {
    (filled: nat, w: nat) => ReadOrder(filled)
  }

  lemma {:induction false} BlockPermutes(win: nat, n: nat)
    requires win > 0
    ensures Permutes(win, n, BlockOrderOf())
  {
    hide PermutesAt;
    forall x: nat | x < n ensures PermutesAt(win, n, BlockOrderOf(), x) {
      BlockPermutesAt(win, n, x);
    }
  }

  lemma {:induction false} BlockPermutesAt(win: nat, n: nat, x: nat)
    requires win > 0 && x < n
    ensures PermutesAt(win, n, BlockOrderOf(), x)
  {
    hide ReadOrder, IsPerm, FilledAt;
    ReadOrderIsPerm(FilledAt(win, n, x));
  }

  // ChaCha20 as an arbitrary function from key and nonce to a keystream.
  type StreamCipher = (Bytes, Bytes) -> Stream

  // The window index as a 64-bit integer in the low eight nonce bytes.
  function WindowNonce(w: nat): (nonce: Bytes)
    ensures |nonce| == NONCE_LEN
  {
    ToBytes(w, 8) + [0, 0, 0, 0]
  }

  // No two windows of a stream share a nonce.
  lemma WindowNonceInjective(v: nat, w: nat)
    requires v < 0x1_0000_0000_0000_0000 && w < 0x1_0000_0000_0000_0000
    requires WindowNonce(v) == WindowNonce(w)
    ensures v == w
  {
    assert ToBytes(v, 8) == WindowNonce(v)[..8] == WindowNonce(w)[..8] == ToBytes(w, 8);
    assert Capacity(8) == 0x1_0000_0000_0000_0000 by {
      assert Capacity(2) == 0x1_0000;
      assert Capacity(4) == 0x1_0000_0000;
      assert Capacity(6) == 0x1_0000_0000_0000;
    }
    ToBytesInjective(v, w, 8);
  }

  datatype CsprngLayer = CsprngLayer(seed: Bytes, chacha: StreamCipher) {
    predicate Valid() {
      |seed| == KEY_LEN
    }

    function StreamOf(w: nat): Stream {
      chacha(seed, WindowNonce(w))
    }

    ghost predicate ServesWindow(filled: nat, w: nat) {
      Drawable(StreamOf(w), filled, 0)
    }

    ghost predicate ServesAt(win: nat, n: nat, x: nat)
      requires win > 0 && x < n
    {
      ServesWindow(FilledAt(win, n, x), x / win)
    }

    // Every draw for an n-byte stream ends: the exact condition under which the
    // layer terminates on streams of that length.
    ghost predicate Serves(win: nat, n: nat)
      requires win > 0
    {
      forall x: nat :: x < n ==> ServesAt(win, n, x)
    }

    lemma {:induction false} ServesHere(win: nat, n: nat, w: nat, base: nat)
      requires win > 0 && Serves(win, n) && AtWindow(win, n, w, base) && base < n
      ensures ServesWindow(Min(n - base, win), w)
    {
      InWindow(win, n, w, base, 0);
      assert ServesAt(win, n, base);
    }

    // The cipher of window w, freshly keyed; then the shuffle.
    method KeyedWindow(filled: nat, w: nat) returns (perm: array<nat>)
      requires filled < TWO32 && ServesWindow(filled, w)
      ensures fresh(perm) && perm[..] == KeyedOrderOf(this)(filled, w)
    {
      var cipher := new KeystreamCipher(chacha(seed, WindowNonce(w)));
      perm := ShuffledWindow(cipher, filled);
    }

    // What the public methods need for an n-byte stream: nothing when it is empty;
    // else a window that is not, swap ranges of 32 bits, and draws that end.
    ghost predicate Runs(windowLen: nat, n: nat) {
      n > 0 ==> windowLen > 0 && Min(n, windowLen) < TWO32 && Serves(windowLen, n)
    }

    function Shuffled(stream: Bytes, windowLen: nat): (r: Bytes)
      requires Runs(windowLen, |stream|)
      ensures |r| == |stream|
    {
      if stream == [] then []
      else
        KeyedPermutes(this, windowLen, |stream|);
        Interleaved(windowLen, KeyedOrderOf(this), stream)
    }

    function Unshuffled(stream: Bytes, windowLen: nat): (r: Bytes)
      requires Runs(windowLen, |stream|)
      ensures |r| == |stream|
    {
      if stream == [] then []
      else
        KeyedPermutes(this, windowLen, |stream|);
        Deinterleaved(windowLen, KeyedOrderOf(this), stream)
    }

    // On a stream that is not empty both are windowed permutations.
    lemma AsWindowed(stream: Bytes, windowLen: nat)
      requires stream != [] && Runs(windowLen, |stream|)
      ensures Permutes(windowLen, |stream|, KeyedOrderOf(this))
      ensures Shuffled(stream, windowLen) == Interleaved(windowLen, KeyedOrderOf(this), stream)
      ensures Unshuffled(stream, windowLen) == Deinterleaved(windowLen, KeyedOrderOf(this), stream)
    {
      KeyedPermutes(this, windowLen, |stream|);
    }

    // Window w of the `interleave` loop.
    method GatherKeyed(stream: Bytes, windowLen: nat, base: nat, w: nat, out: array<byte>) returns (filled: nat)
      requires stream != [] && Runs(windowLen, |stream|)
      requires AtWindow(windowLen, |stream|, w, base) && base < |stream| == out.Length
      requires out[..base] == Shuffled(stream, windowLen)[..base]
      modifies out
      ensures filled == Min(|stream| - base, windowLen) && AtWindow(windowLen, |stream|, w + 1, base + filled)
      ensures out[..base + filled] == Shuffled(stream, windowLen)[..base + filled]
    {
      hide Drawable, KeyedOrder, CsprngLayer.Serves, CsprngLayer.ServesAt, Permutes, Interleaved, Deinterleaved;
      hide CsprngLayer.Shuffled, CsprngLayer.Unshuffled;
      filled := Min(|stream| - base, windowLen);
      ServesHere(windowLen, |stream|, w, base);
      var perm := KeyedWindow(filled, w);
      AsWindowed(stream, windowLen);
      GatherNext(stream, base, perm[..], out, windowLen, KeyedOrderOf(this), w);
    }

    method InterleaveInto(stream: Bytes, windowLen: nat) returns (out: array<byte>)
      requires Runs(windowLen, |stream|)
      ensures fresh(out) && out[..] == Shuffled(stream, windowLen)
    {
      hide CsprngLayer.Shuffled, CsprngLayer.Serves, BaseAfter;
      PassStep(windowLen, |stream|, 0);
      out := new byte[|stream|](_ => 0);
      var base, w := 0, 0;
      while base < |stream|
        invariant AtWindow(windowLen, |stream|, w, base) && base == BaseAfter(windowLen, |stream|, w)
        invariant out[..base] == Shuffled(stream, windowLen)[..base]
      {
        PassStep(windowLen, |stream|, w);
        var filled := GatherKeyed(stream, windowLen, base, w, out);
        base := base + filled;
        w := w + 1;
      }
    }

    // Window w of the `deinterleave` loop.
    method ScatterKeyed(stream: Bytes, windowLen: nat, base: nat, w: nat, out: array<byte>) returns (filled: nat)
      requires stream != [] && Runs(windowLen, |stream|)
      requires AtWindow(windowLen, |stream|, w, base) && base < |stream| == out.Length
      requires out[..base] == Unshuffled(stream, windowLen)[..base]
      modifies out
      ensures filled == Min(|stream| - base, windowLen) && AtWindow(windowLen, |stream|, w + 1, base + filled)
      ensures out[..base + filled] == Unshuffled(stream, windowLen)[..base + filled]
    {
      hide Drawable, KeyedOrder, CsprngLayer.Serves, CsprngLayer.ServesAt, Permutes, Interleaved, Deinterleaved;
      hide CsprngLayer.Shuffled, CsprngLayer.Unshuffled;
      filled := Min(|stream| - base, windowLen);
      ServesHere(windowLen, |stream|, w, base);
      var perm := KeyedWindow(filled, w);
      AsWindowed(stream, windowLen);
      ScatterNext(stream, base, perm[..], out, windowLen, KeyedOrderOf(this), w);
    }

    method DeinterleaveInto(stream: Bytes, windowLen: nat) returns (out: array<byte>)
      requires Runs(windowLen, |stream|)
      ensures fresh(out) && out[..] == Unshuffled(stream, windowLen)
    {
      hide CsprngLayer.Unshuffled, CsprngLayer.Serves, BaseAfter;
      PassStep(windowLen, |stream|, 0);
      out := new byte[|stream|](_ => 0);
      var base, w := 0, 0;
      while base < |stream|
        invariant AtWindow(windowLen, |stream|, w, base) && base == BaseAfter(windowLen, |stream|, w)
        invariant out[..base] == Unshuffled(stream, windowLen)[..base]
      {
        PassStep(windowLen, |stream|, w);
        var filled := ScatterKeyed(stream, windowLen, base, w, out);
        base := base + filled;
        w := w + 1;
      }
    }
  }

  function NewCsprngLayer(seed: Bytes, chacha: StreamCipher): Res<CsprngLayer> {
    if |seed| == KEY_LEN then Success(CsprngLayer(seed, chacha)) else Failure(InvalidInput)
  }

  function KeyedOrderOf(c: CsprngLayer): Order {
    (filled: nat, w: nat) requires c.ServesWindow(filled, w) => KeyedOrder(c.StreamOf(w), filled)
  }

  lemma {:induction false} KeyedPermutesAt(c: CsprngLayer, win: nat, n: nat, x: nat)
    requires win > 0 && x < n && c.ServesAt(win, n, x)
    ensures PermutesAt(win, n, KeyedOrderOf(c), x)
  {
    hide Drawable, KeyedOrder, IsPerm, FilledAt;
    KeyedOrderIsPerm(c.StreamOf(x / win), FilledAt(win, n, x));
  }

  lemma {:induction false} KeyedPermutes(c: CsprngLayer, win: nat, n: nat)
    requires win > 0 && c.Serves(win, n)
    ensures Permutes(win, n, KeyedOrderOf(c))
  {
    hide CsprngLayer.ServesAt, PermutesAt;
    forall x: nat | x < n ensures PermutesAt(win, n, KeyedOrderOf(c), x) {
      assert c.ServesAt(win, n, x);
      KeyedPermutesAt(c, win, n, x);
    }
  }

  // A seed whose window keystreams are lively serves every stream length.
  lemma {:induction false} LivelyServes(c: CsprngLayer, win: nat, n: nat)
    requires win > 0 && Min(n, win) <= TWO32 && forall w: nat :: Lively(c.StreamOf(w))
    ensures c.Serves(win, n)
  {
    forall x: nat | x < n ensures c.ServesAt(win, n, x) {
      LivelyIsDrawable(c.StreamOf(x / win), FilledAt(win, n, x), 0);
    }
  }

  datatype Interleaver =
    | Block(block: BlockInterleaver)
    | BlockThenCsprng(block: BlockInterleaver, csprng: CsprngLayer)
  {
    predicate Valid() {
      block.Valid() && (BlockThenCsprng? ==> csprng.Valid())
    }

    // Streams of n bytes can be permuted: always, without the keyed layer.
    ghost predicate Serves(n: nat)
      requires Valid()
    {
      BlockThenCsprng? ==> csprng.Serves(block.WindowLen(), n)
    }

    function Interleave(s: Bytes): (r: Bytes)
      requires Valid() && Serves(|s|)
      ensures |r| == |s|
    {
      var win := block.WindowLen();
      BlockPermutes(win, |s|);
      var blocked := Interleaved(win, BlockOrderOf(), s);
      if Block? then blocked
      else
        csprng.Shuffled(blocked, win)
    }

    // The keyed layer, applied last, is undone first.
    function Deinterleave(s: Bytes): (r: Bytes)
      requires Valid() && Serves(|s|)
      ensures |r| == |s|
    {
      var win := block.WindowLen();
      BlockPermutes(win, |s|);
      if Block? then Deinterleaved(win, BlockOrderOf(), s)
      else
        Deinterleaved(win, BlockOrderOf(), csprng.Unshuffled(s, win))
    }

    method InterleaveInto(stream: Bytes) returns (out: array<byte>)
      requires Valid() && Serves(|stream|)
      ensures fresh(out) && out[..] == Interleave(stream)
    {
      out := block.InterleaveInto(stream);
      if BlockThenCsprng? {
        out := csprng.InterleaveInto(out[..], block.WindowLen());
      }
    }

    method DeinterleaveInto(stream: Bytes) returns (out: array<byte>)
      requires Valid() && Serves(|stream|)
      ensures fresh(out) && out[..] == Deinterleave(stream)
    {
      match this
      case Block(block) =>
        out := block.DeinterleaveInto(stream);
      case BlockThenCsprng(block, csprng) =>
        var unshuffled := csprng.DeinterleaveInto(stream, block.WindowLen());
        out := block.DeinterleaveInto(unshuffled[..]);
    }
  }

  // The cipher of window w runs under the nonce whose first eight bytes, little
  // end first, are w and whose last four are zero.
  ghost predicate NonceOf(nonce: Bytes, w: nat) {
    |nonce| == NONCE_LEN && FromBytes(nonce[..8]) == w && nonce[8..] == [0, 0, 0, 0]
  }

  lemma {:induction false} WindowCipher(c: CsprngLayer, filled: nat, w: nat, nonce: Bytes)
    requires NonceOf(nonce, w) && Drawable(c.chacha(c.seed, nonce), filled, 0)
    ensures c.ServesWindow(filled, w)
    ensures KeyedOrderOf(c)(filled, w) == KeyedOrder(c.chacha(c.seed, nonce), filled)
  {
    WindowNonceOnly(nonce, w);
  }

  // The layer moves bytes inside their window, by the order of the window's cipher.
  lemma {:induction false} ShuffledPlace(
    c: CsprngLayer, s: Bytes, win: nat, w: nat, base: nat, filled: nat, k: nat, nonce: Bytes)
    requires c.Runs(win, |s|) && base == w * win && base < |s| && k < filled == Min(|s| - base, win)
    requires NonceOf(nonce, w)
    ensures Drawable(c.chacha(c.seed, nonce), filled, 0)
    ensures var p := KeyedOrder(c.chacha(c.seed, nonce), filled);
            k < |p| && p[k] < filled && c.Shuffled(s, win)[base + k] == s[base + p[k]]
  {
    hide Drawable, KeyedOrder, IsPerm, Permutes;
    c.AsWindowed(s, win);
    c.ServesHere(win, |s|, w, base);
    WindowNonceOnly(nonce, w);
    WindowCipher(c, filled, w, nonce);
    OrderAtWindow(win, |s|, KeyedOrderOf(c), w, base);
    KeyedOrderIsPerm(c.chacha(c.seed, nonce), filled);
    InWindow(win, |s|, w, base, k);
    PermValue(KeyedOrder(c.chacha(c.seed, nonce), filled), k);
    SourceInWindow(win, KeyedOrderOf(c), |s|, w, base, k);
  }

  lemma PermValue(p: seq<nat>, k: nat)
    requires IsPerm(p) && k < |p|
    ensures p[k] < |p|
  {
  }

  lemma WindowNonceOnly(nonce: Bytes, w: nat)
    ensures NonceOf(nonce, w) ==> nonce == WindowNonce(w)
  {
    if NonceOf(nonce, w) {
      BytesOfValue(nonce[..8]);
      assert nonce == nonce[..8] + nonce[8..];
    }
  }

  // The keyed layer comes last, over the whole output of the block order.
  lemma LayersCompose(il: Interleaver, s: Bytes)
    requires il.Valid() && il.BlockThenCsprng? && il.Serves(|s|)
    ensures il.csprng.Runs(il.block.depth * RS_BLOCK, |s|)
    ensures il.Interleave(s) == il.csprng.Shuffled(Block(il.block).Interleave(s), il.block.depth * RS_BLOCK)
  {
  }

  // Two-sided inverses, for every seed, depth and stream length on which the
  // keyed layer terminates.
  lemma {:induction false} InterleaverRoundTrip(il: Interleaver, s: Bytes)
    requires il.Valid() && il.Serves(|s|)
    ensures il.Deinterleave(il.Interleave(s)) == s
    ensures il.Interleave(il.Deinterleave(s)) == s
  {
    var win := il.block.WindowLen();
    BlockPermutes(win, |s|);
    WindowedRoundTrip(win, BlockOrderOf(), s);
    if il.BlockThenCsprng? {
      var keyed := KeyedOrderOf(il.csprng);
      KeyedPermutes(il.csprng, win, |s|);
      WindowedRoundTrip(win, keyed, Interleaved(win, BlockOrderOf(), s));
      WindowedRoundTrip(win, keyed, s);
      WindowedRoundTrip(win, BlockOrderOf(), Deinterleaved(win, keyed, s));
    }
  }
}
