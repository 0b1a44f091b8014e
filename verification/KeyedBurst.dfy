// What a burst costs a codeword once the keyed layer has permuted each window: no
// more than its share of the window, and some keystream makes it that much.

module KeyedBurst {
  import opened Format
  import opened LittleEndian
  import opened FiniteSets
  import opened Permutations
  import opened BlockOrder
  import opened Keystream
  import opened FisherYates
  import opened Windows
  import opened Interleaver
  import opened Burst
  import opened ReedSolomon

  // ----- The bound -----

  // Where stream symbol j travels, under either strategy.
  function Travel(il: Interleaver, n: nat, j: nat): (x: nat)
    requires il.Valid() && il.Serves(n) && j < n
    ensures x < n && x / il.block.WindowLen() == j / il.block.WindowLen()
  {
    var win := il.block.WindowLen();
    BlockPermutes(win, n);
    var x := TargetIndex(win, BlockOrderOf(), n, j);
    if il.Block? then x
    else
      KeyedPermutes(il.csprng, win, n);
      TargetIndex(win, KeyedOrderOf(il.csprng), n, x)
  }

  lemma {:induction false} TravelInjective(il: Interleaver, n: nat, i: nat, j: nat)
    requires il.Valid() && il.Serves(n) && i < n && j < n && Travel(il, n, i) == Travel(il, n, j)
    ensures i == j
  {
    var win := il.block.WindowLen();
    BlockPermutes(win, n);
    SourceOfTarget(win, BlockOrderOf(), n, i);
    SourceOfTarget(win, BlockOrderOf(), n, j);
    if il.BlockThenCsprng? {
      KeyedPermutes(il.csprng, win, n);
      SourceOfTarget(win, KeyedOrderOf(il.csprng), n, TargetIndex(win, BlockOrderOf(), n, i));
      SourceOfTarget(win, KeyedOrderOf(il.csprng), n, TargetIndex(win, BlockOrderOf(), n, j));
    }
  }

  lemma {:induction false} Travels(il: Interleaver, s: Bytes, j: nat)
    requires il.Valid() && il.Serves(|s|) && j < |s|
    ensures il.Interleave(s)[Travel(il, |s|, j)] == s[j]
    ensures il.Deinterleave(s)[j] == s[Travel(il, |s|, j)]
  {
    var win := il.block.WindowLen();
    BlockPermutes(win, |s|);
    SourceOfTarget(win, BlockOrderOf(), |s|, j);
    if il.BlockThenCsprng? {
      KeyedPermutes(il.csprng, win, |s|);
      SourceOfTarget(win, KeyedOrderOf(il.csprng), |s|, TargetIndex(win, BlockOrderOf(), |s|, j));
    }
  }

  // A symbol of codeword c that is wrong after de-interleaving travelled inside
  // the burst's part of the window of c.
  lemma {:induction false} ErrorTravels(il: Interleaver, s: Bytes, y: Bytes, lo: nat, hi: nat, j: nat)
    requires il.Valid() && il.Serves(|s|) && DamagedWithin(il.Interleave(s), y, lo, hi)
    requires j < |s| && s[j] != il.Deinterleave(y)[j]
    ensures var w := WindowOf(il.block.depth, j / RS_BLOCK);
            Travel(il, |s|, j) in BurstPart(il.block.depth, w, lo, hi)
  {
    hide Interleaver.Interleave, Interleaver.Deinterleave, Interleaver.Serves, Travel;
    Travels(il, s, j);
    Travels(il, y, j);
    SymbolCell(il.block.depth, j);
    DivModFacts(Travel(il, |s|, j), il.block.WindowLen());
  }

  // The places of window w that the burst covers.
  function BurstPart(depth: nat, w: nat, lo: nat, hi: nat): (part: set<nat>)
    ensures |part| == ShareOf(depth, w, lo, hi)
    ensures forall x :: x in part <==>
              Max(lo, WindowStart(depth, w)) <= x < Min(hi, WindowStart(depth, w) + depth * RS_BLOCK)
  {
    Interval(Max(lo, WindowStart(depth, w)), ShareOf(depth, w, lo, hi))
  }

  // Under either strategy, every seed and every keystream a burst reaches a
  // codeword at most as often as it has symbols in the codeword's window.
  lemma {:induction false} ShareBounds(il: Interleaver, s: Bytes, y: Bytes, lo: nat, hi: nat, c: nat)
    requires il.Valid() && il.Serves(|s|) && DamagedWithin(il.Interleave(s), y, lo, hi)
    ensures |ErrorsIn(s, il.Deinterleave(y), RS_BLOCK, c)|
            <= Min(ShareOf(il.block.depth, WindowOf(il.block.depth, c), lo, hi), RS_BLOCK)
  {
    hide Interleaver.Interleave, Interleaver.Deinterleave, Interleaver.Serves, Travel, WindowOf, ShareOf;
    var z := il.Deinterleave(y);
    var errors, w := ErrorsIn(s, z, RS_BLOCK, c), WindowOf(il.block.depth, c);
    var part := BurstPart(il.block.depth, w, lo, hi);
    var f := (j: nat) requires j < |s| => Travel(il, |s|, j);
    forall j | j in errors ensures f(j) in part {
      ErrorTravels(il, s, y, lo, hi, j);
    }
    forall i, j | i in errors && j in errors && f(i) == f(j) ensures i == j {
      TravelInjective(il, |s|, i, j);
    }
    InjectionSize(errors, part, f);
    SubsetSize(errors, Interval(c * RS_BLOCK, RS_BLOCK));
  }

  // ----- Every order of a window occurs -----

  // The keystream whose 32-bit words are ds, and then zero.
  function WordStream(ds: seq<nat>): Stream {
    (p: nat) => if p / 4 < |ds| then ToBytes(ds[p / 4], 4)[p % 4] else 0
  }

  lemma {:induction false} WordStreamReads(ds: seq<nat>, i: nat)
    requires i < |ds| ==> ds[i] < TWO32
    ensures Word(WordStream(ds), i) == if i < |ds| then ds[i] else 0
  {
    hide ToBytes;
    var ks := WordStream(ds);
    WordOfBytes(i, 0);
    WordOfBytes(i, 1);
    WordOfBytes(i, 2);
    WordOfBytes(i, 3);
    if i < |ds| {
      FourBytes(ds[i]);
      var b := ToBytes(ds[i], 4);
      assert ks(4 * i) == b[0] && ks(4 * i + 1) == b[1] && ks(4 * i + 2) == b[2] && ks(4 * i + 3) == b[3];
    }
  }

  lemma WordOfBytes(i: nat, k: nat)
    requires k < 4
    ensures (4 * i + k) / 4 == i && (4 * i + k) % 4 == k
  {
  }

  lemma {:induction false} FourBytes(x: nat)
    requires x < TWO32
    ensures var b := ToBytes(x, 4);
            b[0] as nat + 0x100 * b[1] as nat + 0x1_0000 * b[2] as nat + 0x100_0000 * b[3] as nat == x
  {
    var b1 := ToBytes(x / 256, 3);
    var b2 := ToBytes(x / 256 / 256, 2);
    var b3 := ToBytes(x / 256 / 256 / 256, 1);
    assert ToBytes(x, 4) == [(x % 256) as byte] + b1;
    assert b1 == [(x / 256 % 256) as byte] + b2;
    assert b2 == [(x / 256 / 256 % 256) as byte] + b3;
    assert b3 == [(x / 256 / 256 / 256 % 256) as byte] + ToBytes(x / 256 / 256 / 256 / 256, 0);
  }

  // Draws are made from the highest place down, so this keystream yields c.
  function DrawStream(c: seq<nat>): Stream {
    WordStream(seq(|c|, i requires 0 <= i < |c| => c[|c| - 1 - i]))
  }

  lemma {:induction false} DrawStreamReads(c: seq<nat>, i: nat)
    requires ValidDraws(c) && |c| <= TWO31
    ensures Word(DrawStream(c), i) == (if i < |c| then c[|c| - 1 - i] else 0) < TWO31
  {
    WordStreamReads(seq(|c|, k requires 0 <= k < |c| => c[|c| - 1 - k]), i);
  }

  lemma {:induction false} SmallWordAccepted(ks: Stream, range: nat, i: nat)
    requires 1 <= range <= TWO32 && Word(ks, i) < range
    ensures AcceptAhead(ks, range, i) && FirstAccepted(ks, range, i) == i
  {
    LimitIsLargestMultiple(range, 1);
    assert Accepts(ks, range, i);
  }

  lemma {:induction false} DrawStreamDraws(c: seq<nat>, m: nat)
    requires ValidDraws(c) && 1 <= m <= |c| <= TWO31
    ensures Drawable(DrawStream(c), m, |c| - m)
    ensures CipherDraws(DrawStream(c), m, |c| - m) == c[..m]
  {
    hide DrawStream, AcceptAhead, FirstAccepted, Word;
    if m > 1 {
      DrawStreamReads(c, |c| - m);
      SmallWordAccepted(DrawStream(c), m, |c| - m);
      DrawStreamDraws(c, m - 1);
      CipherStep(DrawStream(c), m, |c| - m);
      Mod(c[m - 1], m);
      assert c[..m] == c[..m - 1] + [c[m - 1]];
    }
  }

  lemma Mod(x: nat, m: nat)
    requires x < m
    ensures x % m == x
  {
    DivModUnique(x, m, 0, x);
  }

  function StreamFor(q: seq<nat>): Stream
    requires IsPerm(q)
  {
    DrawStream(DrawsOf(q))
  }

  lemma {:induction false} DrawStreamLively(c: seq<nat>)
    requires ValidDraws(c) && |c| <= TWO31
    ensures Lively(DrawStream(c))
  {
    hide DrawStream, Word;
    forall i: nat ensures LowWordAhead(DrawStream(c), i) {
      DrawStreamReads(c, i);
    }
  }

  // Each order of a window is the keyed order of some keystream, and one that
  // never runs out of acceptable words.
  lemma {:induction false} EveryOrderOccurs(q: seq<nat>)
    requires IsPerm(q) && |q| <= TWO31
    ensures Lively(StreamFor(q)) && Drawable(StreamFor(q), |q|, 0)
    ensures KeyedOrder(StreamFor(q), |q|) == q
  {
    hide DrawStream, DrawsOf, CipherDraws, Lively;
    var c := DrawsOf(q);
    DrawStreamLively(c);
    if |q| <= 1 {
      hide Shuffle;
      assert q == Identity(|q|);
    } else {
      DrawStreamDraws(c, |q|);
      assert c[..|q|] == c;
    }
  }

  // ----- The bound is attained -----

  // Place k plus t, around the end of the window.
  function Around(filled: nat, t: nat, k: nat): (r: nat)
    requires t < filled && k < filled
    ensures r < filled
  {
    if k + t < filled then k + t else k + t - filled
  }

  // The order that undoes the block order and turns the window by t.
  function TurnOrder(filled: nat, t: nat): (q: seq<nat>)
    requires t < filled
    ensures |q| == filled
  {
    seq(filled, k requires 0 <= k < filled => PositionOf(filled, Around(filled, t, k)))
  }

  lemma {:induction false} TurnOrderIsPerm(filled: nat, t: nat)
    requires t < filled
    ensures IsPerm(TurnOrder(filled, t))
  {
    hide PositionOf, SourceOf;
    var q := TurnOrder(filled, t);
    forall k | 0 <= k < filled ensures q[k] < filled && SourceOf(filled, q[k]) == Around(filled, t, k) {
      SourceOfPosition(filled, Around(filled, t, k));
    }
    forall v | 0 <= v < filled ensures v in q {
      PositionOfSource(filled, v);
      var x := SourceOf(filled, v);
      assert q[if x >= t then x - t else x + filled - t] == v;
    }
  }

  // The turn that brings offset `cell` to offset `at`.
  function TurnFor(filled: nat, cell: nat, at: nat): (t: nat)
    requires cell < filled && at < filled
    ensures t < filled
  {
    if cell >= at then cell - at else cell + filled - at
  }

  lemma TurnBrings(filled: nat, cell: nat, at: nat, i: nat)
    requires cell + i < filled && at + i < filled
    ensures Around(filled, TurnFor(filled, cell, at), at + i) == cell + i
  {
  }

  // A cipher that answers one keystream whatever the key and the nonce.
  function ClusterLayer(seed: Bytes, filled: nat, t: nat): (layer: CsprngLayer)
    requires |seed| == KEY_LEN && t < filled <= TWO31
    ensures layer.Valid()
    ensures forall w: nat :: layer.ServesWindow(filled, w) && KeyedOrderOf(layer)(filled, w) == TurnOrder(filled, t)
  {
    TurnOrderIsPerm(filled, t);
    EveryOrderOccurs(TurnOrder(filled, t));
    CsprngLayer(seed, (key: Bytes, nonce: Bytes) => StreamFor(TurnOrder(filled, t)))
  }

  lemma {:induction false} ClusterServes(seed: Bytes, filled: nat, t: nat, win: nat, n: nat)
    requires |seed| == KEY_LEN && t < filled <= TWO31 && 0 < win <= TWO32
    ensures ClusterLayer(seed, filled, t).Serves(win, n)
  {
    TurnOrderIsPerm(filled, t);
    EveryOrderOccurs(TurnOrder(filled, t));
    LivelyServes(ClusterLayer(seed, filled, t), win, n);
  }

  function Turned(depth: nat, seed: Bytes, n: nat, w: nat, t: nat): (il: Interleaver)
    requires 1 <= depth <= RS_INTERLEAVE_MAX && |seed| == KEY_LEN && t < RowsInWindow(depth, n, w) * RS_BLOCK
    ensures il.Valid() && il.BlockThenCsprng? && il.block.depth == depth && il.csprng.seed == seed
    ensures il.Serves(n)
    ensures var filled := RowsInWindow(depth, n, w) * RS_BLOCK;
            il.csprng.ServesWindow(filled, w) && KeyedOrderOf(il.csprng)(filled, w) == TurnOrder(filled, t)
  {
    var filled := RowsInWindow(depth, n, w) * RS_BLOCK;
    ClusterServes(seed, filled, t, depth * RS_BLOCK, n);
    BlockThenCsprng(BlockInterleaver(depth), ClusterLayer(seed, filled, t))
  }

  lemma {:induction false} BlockPlace(depth: nat, n: nat, w: nat, filled: nat, off: nat)
    requires depth >= 1 && WindowStart(depth, w) <= n && filled == Min(depth * RS_BLOCK, n - WindowStart(depth, w))
    requires off < filled
    ensures var j := WindowStart(depth, w) + off;
            j < n && PlaceOf(depth, n, j) == WindowStart(depth, w) + PositionOf(filled, off)
  {
    hide PlaceOf, PositionOf;
    InWindow(depth * RS_BLOCK, n, w, WindowStart(depth, w), off);
    PlaceInWindow(depth, n, WindowStart(depth, w) + off);
  }

  lemma {:induction false} KeyedPlace(c: CsprngLayer, depth: nat, n: nat, w: nat, q: seq<nat>, k: nat, x: nat)
    requires depth >= 1 && c.Serves(depth * RS_BLOCK, n) && WindowStart(depth, w) <= n
    requires k < |q| == Min(depth * RS_BLOCK, n - WindowStart(depth, w)) && IsPerm(q)
    requires x == WindowStart(depth, w) + q[k]
    requires c.ServesWindow(|q|, w) && KeyedOrderOf(c)(|q|, w) == q
    ensures Permutes(depth * RS_BLOCK, n, KeyedOrderOf(c)) && x < n
    ensures TargetIndex(depth * RS_BLOCK, KeyedOrderOf(c), n, x) == WindowStart(depth, w) + k
  {
    hide CsprngLayer.Serves, CsprngLayer.ServesWindow, KeyedOrderOf;
    KeyedPermutes(c, depth * RS_BLOCK, n);
    InWindow(depth * RS_BLOCK, n, w, WindowStart(depth, w), q[k]);
    IndexOfUnique(q, k);
  }

  lemma KeyedTravel(il: Interleaver, n: nat, j: nat)
    requires il.Valid() && il.BlockThenCsprng? && il.Serves(n) && j < n
    ensures il.csprng.Serves(il.block.depth * RS_BLOCK, n)
    ensures Permutes(il.block.depth * RS_BLOCK, n, KeyedOrderOf(il.csprng))
    ensures Travel(il, n, j)
            == TargetIndex(il.block.depth * RS_BLOCK, KeyedOrderOf(il.csprng), n, PlaceOf(il.block.depth, n, j))
  {
    KeyedPermutes(il.csprng, il.block.WindowLen(), n);
  }

  // In a window keyed to a turn, the cell that lies `t` further on travels to offset k.
  lemma {:induction false} TurnedTravel(il: Interleaver, n: nat, w: nat, start: nat, filled: nat, t: nat, k: nat)
    requires il.Valid() && il.BlockThenCsprng? && il.Serves(n) && start == WindowStart(il.block.depth, w) <= n
    requires filled == Min(il.block.depth * RS_BLOCK, n - start) && t < filled && k < filled
    requires il.csprng.ServesWindow(filled, w) && KeyedOrderOf(il.csprng)(filled, w) == TurnOrder(filled, t)
    ensures var j := start + Around(filled, t, k);
            j < n && Travel(il, n, j) == start + k
  {
    hide Interleaver.Serves, CsprngLayer.Serves, CsprngLayer.ServesWindow, KeyedOrderOf, WindowStart, Travel, PlaceOf;
    hide IsPerm, Permutes, TargetIndex, PositionOf, Around;
    var off, q := Around(filled, t, k), TurnOrder(filled, t);
    TurnOrderIsPerm(filled, t);
    BlockPlace(il.block.depth, n, w, filled, off);
    KeyedTravel(il, n, start + off);
    var x := PlaceOf(il.block.depth, n, start + off);
    assert x == start + q[k];
    KeyedPlace(il.csprng, il.block.depth, n, w, q, k, x);
  }

  function AdverseTurn(depth: nat, n: nat, c: nat, lo: nat): (t: nat)
    requires depth >= 1 && RowOf(depth, c) < RowsInWindow(depth, n, WindowOf(depth, c))
    requires Max(lo, WindowStart(depth, WindowOf(depth, c))) - WindowStart(depth, WindowOf(depth, c))
             < RowsInWindow(depth, n, WindowOf(depth, c)) * RS_BLOCK
    ensures t < RowsInWindow(depth, n, WindowOf(depth, c)) * RS_BLOCK
  {
    var start := WindowStart(depth, WindowOf(depth, c));
    TurnFor(RowsInWindow(depth, n, WindowOf(depth, c)) * RS_BLOCK, RowOf(depth, c) * RS_BLOCK, Max(lo, start) - start)
  }

  // Both the codeword and the burst's part lie in the filled part of the window.
  lemma {:induction false} CodewordFits(depth: nat, n: nat, c: nat, lo: nat, hi: nat)
    requires depth >= 1 && n % RS_BLOCK == 0 && c < n / RS_BLOCK && hi <= n
    requires ShareOf(depth, WindowOf(depth, c), lo, hi) > 0
    ensures var w := WindowOf(depth, c);
            var start, filled := WindowStart(depth, w), RowsInWindow(depth, n, w) * RS_BLOCK;
            && RowOf(depth, c) < RowsInWindow(depth, n, w) && start < n
            && Max(lo, start) - start + ShareOf(depth, w, lo, hi) <= filled
  {
    WindowOfSymbol(depth, n, c * RS_BLOCK);
    SymbolCell(depth, c * RS_BLOCK);
    var w := WindowOf(depth, c);
    hide WindowOf, RowOf;
    RowsFillWindow(depth, n, w);
  }

  // The keystream under which the burst [lo, hi) falls on codeword c.
  function Adverse(depth: nat, seed: Bytes, n: nat, c: nat, lo: nat, hi: nat): (il: Interleaver)
    requires 1 <= depth <= RS_INTERLEAVE_MAX && |seed| == KEY_LEN && n % RS_BLOCK == 0 && c < n / RS_BLOCK
    requires hi <= n && ShareOf(depth, WindowOf(depth, c), lo, hi) > 0
    ensures il.Valid() && il.BlockThenCsprng? && il.block.depth == depth && il.csprng.seed == seed
    ensures il.Serves(n) && AdverseIn(il.csprng, depth, n, c, lo, hi)
  {
    CodewordFits(depth, n, c, lo, hi);
    Turned(depth, seed, n, WindowOf(depth, c), AdverseTurn(depth, n, c, lo))
  }

  // The window of c is keyed to the turn that brings c under the burst.
  ghost predicate AdverseIn(layer: CsprngLayer, depth: nat, n: nat, c: nat, lo: nat, hi: nat)
    requires depth >= 1 && n % RS_BLOCK == 0 && c < n / RS_BLOCK
    requires hi <= n && ShareOf(depth, WindowOf(depth, c), lo, hi) > 0
  {
    CodewordFits(depth, n, c, lo, hi);
    var w := WindowOf(depth, c);
    var filled := RowsInWindow(depth, n, w) * RS_BLOCK;
    layer.ServesWindow(filled, w) && KeyedOrderOf(layer)(filled, w) == TurnOrder(filled, AdverseTurn(depth, n, c, lo))
  }

  // The turn brings cell i of codeword c to place i of the burst's part.
  lemma {:induction false} CellUnderBurst(depth: nat, n: nat, c: nat, lo: nat, hi: nat, i: nat)
    requires depth >= 1 && n % RS_BLOCK == 0 && c < n / RS_BLOCK && hi <= n
    requires i < Min(ShareOf(depth, WindowOf(depth, c), lo, hi), RS_BLOCK)
    ensures var w := WindowOf(depth, c);
            var start, filled := WindowStart(depth, w), RowsInWindow(depth, n, w) * RS_BLOCK;
            var at := Max(lo, start) - start;
            && RowOf(depth, c) < RowsInWindow(depth, n, w)
            && start <= n && filled == Min(depth * RS_BLOCK, n - start) && at + i < filled
            && c * RS_BLOCK + i == start + Around(filled, AdverseTurn(depth, n, c, lo), at + i) < n
  {
    var w := WindowOf(depth, c);
    var start, rows, row := WindowStart(depth, w), RowsInWindow(depth, n, w), RowOf(depth, c);
    CodewordFits(depth, n, c, lo, hi);
    SymbolCell(depth, c * RS_BLOCK);
    RowsFillWindow(depth, n, w);
    hide WindowOf, RowOf, RowsInWindow, WindowStart, ShareOf, Around;
    TurnBrings(rows * RS_BLOCK, row * RS_BLOCK, Max(lo, start) - start, i);
  }

  // Then the i-th symbol of codeword c travels to the i-th place of the burst's part.
  lemma {:induction false} AdverseTravel(il: Interleaver, n: nat, c: nat, lo: nat, hi: nat, i: nat)
    requires il.Valid() && il.BlockThenCsprng? && il.Serves(n) && n % RS_BLOCK == 0 && c < n / RS_BLOCK
    requires hi <= n && i < Min(ShareOf(il.block.depth, WindowOf(il.block.depth, c), lo, hi), RS_BLOCK)
    requires AdverseIn(il.csprng, il.block.depth, n, c, lo, hi)
    ensures c * RS_BLOCK + i < n
    ensures Travel(il, n, c * RS_BLOCK + i) == Max(lo, WindowStart(il.block.depth, WindowOf(il.block.depth, c))) + i
  {
    hide WindowOf, RowOf, RowsInWindow, WindowStart, ShareOf, Travel, Interleaver.Serves, CsprngLayer.Serves;
    hide CsprngLayer.ServesWindow, KeyedOrderOf, Around, AdverseTurn, TurnOrder;
    var depth := il.block.depth;
    var w := WindowOf(depth, c);
    var start, filled := WindowStart(depth, w), RowsInWindow(depth, n, w) * RS_BLOCK;
    CellUnderBurst(depth, n, c, lo, hi, i);
    var turn, k := AdverseTurn(depth, n, c, lo), Max(lo, start) - start + i;
    assert il.csprng.ServesWindow(filled, w) && KeyedOrderOf(il.csprng)(filled, w) == TurnOrder(filled, turn);
    hide AdverseIn, Max;
    TurnedTravel(il, n, w, start, filled, turn, k);
  }

  // Whatever the burst and the codeword, some keystream makes the codeword take
  // as many errors as ShareBounds allows.
  lemma {:induction false} ShareAttained(depth: nat, seed: Bytes, s: Bytes, y: Bytes, lo: nat, hi: nat, c: nat)
    requires 1 <= depth <= RS_INTERLEAVE_MAX && |seed| == KEY_LEN && |s| % RS_BLOCK == 0 && c < |s| / RS_BLOCK
    requires hi <= |s| && ShareOf(depth, WindowOf(depth, c), lo, hi) > 0
    requires DamagedThroughout(Adverse(depth, seed, |s|, c, lo, hi).Interleave(s), y, lo, hi)
    ensures |ErrorsIn(s, Adverse(depth, seed, |s|, c, lo, hi).Deinterleave(y), RS_BLOCK, c)|
            >= Min(ShareOf(depth, WindowOf(depth, c), lo, hi), RS_BLOCK)
  {
    hide Interleaver.Interleave, Interleaver.Deinterleave, Interleaver.Serves, Travel, Adverse, AdverseIn;
    var il, start := Adverse(depth, seed, |s|, c, lo, hi), WindowStart(depth, WindowOf(depth, c));
    var z, q := il.Deinterleave(y), Min(ShareOf(depth, WindowOf(depth, c), lo, hi), RS_BLOCK);
    var cells := Interval(c * RS_BLOCK, q);
    forall j | j in cells ensures j in ErrorsIn(s, z, RS_BLOCK, c) {
      AdverseTravel(il, |s|, c, lo, hi, j - c * RS_BLOCK);
      Travels(il, s, j);
      Travels(il, y, j);
    }
    SubsetSize(cells, ErrorsIn(s, z, RS_BLOCK, c));
  }
}
