// How the block interleaver spreads a channel burst over Reed-Solomon codewords
// (the guarantee stated at the head of src/fec/interleaver.rs).

module Burst {
  import opened Format
  import opened FiniteSets
  import opened Permutations
  import opened BlockOrder
  import opened Windows
  import opened Interleaver
  import opened ReedSolomon

  // The window that carries codeword c, and the row that holds it there.
  function WindowOf(depth: nat, c: nat): nat
    requires depth >= 1
  {
    DivModFacts(c, depth);
    c / depth
  }

  function RowOf(depth: nat, c: nat): nat
    requires depth >= 1
  {
    c % depth
  }

  // Codewords held by window w of an n-byte stream of whole codewords.
  function RowsInWindow(depth: nat, n: nat, w: nat): nat {
    Min(depth, if w * depth <= n / RS_BLOCK then n / RS_BLOCK - w * depth else 0)
  }

  // The stream place where window w begins.
  function WindowStart(depth: nat, w: nat): nat {
    w * (depth * RS_BLOCK)
  }

  function Max(a: nat, b: nat): nat {
    if a <= b then b else a
  }

  // Length of the part of [lo, hi) inside the `win` places from `start` on.
  function Overlap(start: nat, win: nat, lo: nat, hi: nat): nat {
    var from, to := Max(lo, start), Min(hi, start + win);
    if from <= to then to - from else 0
  }

  // Length of the part of [lo, hi) that lies inside window w.
  function ShareOf(depth: nat, w: nat, lo: nat, hi: nat): nat {
    Overlap(WindowStart(depth, w), depth * RS_BLOCK, lo, hi)
  }

  // Where the block interleaver sends stream symbol j, and what it sends from place x.
  function PlaceOf(depth: nat, n: nat, j: nat): (x: nat)
    requires depth >= 1 && j < n
    ensures x < n
  {
    BlockPermutes(depth * RS_BLOCK, n);
    TargetIndex(depth * RS_BLOCK, BlockOrderOf(), n, j)
  }

  function SymbolAt(depth: nat, n: nat, x: nat): (j: nat)
    requires depth >= 1 && x < n
    ensures j < n && PlaceOf(depth, n, j) == x
  {
    BlockPermutes(depth * RS_BLOCK, n);
    TargetOfSource(depth * RS_BLOCK, BlockOrderOf(), n, x);
    SourceIndex(depth * RS_BLOCK, BlockOrderOf(), n, x)
  }

  // `sent` carries symbol j of `stream` at PlaceOf(j).
  ghost predicate Carries(depth: nat, stream: Bytes, sent: Bytes)
    requires depth >= 1
  {
    |stream| == |sent| && forall j: nat :: j < |stream| ==> sent[PlaceOf(depth, |stream|, j)] == stream[j]
  }

  lemma {:induction false} InterleaverCarries(block: BlockInterleaver, s: Bytes)
    requires block.Valid()
    ensures Carries(block.depth, s, Block(block).Interleave(s))
    ensures Carries(block.depth, Block(block).Deinterleave(s), s)
  {
    var win := block.WindowLen();
    BlockPermutes(win, |s|);
    forall j: nat | j < |s|
      ensures Block(block).Interleave(s)[PlaceOf(block.depth, |s|, j)] == s[j]
      ensures Block(block).Deinterleave(s)[j] == s[PlaceOf(block.depth, |s|, j)]
    {
      SourceOfTarget(win, BlockOrderOf(), |s|, j);
    }
  }

  // Codeword c is row RowOf(c) of window WindowOf(c); symbol j is its column j % 255.
  lemma {:induction false} SymbolCell(depth: nat, j: nat)
    requires depth >= 1
    ensures var c := j / RS_BLOCK;
            var w, row := WindowOf(depth, c), RowOf(depth, c);
            && row < depth && c == w * depth + row && j / (depth * RS_BLOCK) == w
            && j == WindowStart(depth, w) + row * RS_BLOCK + j % RS_BLOCK
  {
    var c := j / RS_BLOCK;
    var w, row := WindowOf(depth, c), RowOf(depth, c);
    DivModFacts(c, depth);
    assert w * depth * RS_BLOCK == w * (depth * RS_BLOCK);
    DivModUnique(j, depth * RS_BLOCK, w, row * RS_BLOCK + j % RS_BLOCK);
  }

  // A window of a whole-codeword stream holds whole rows.
  lemma {:induction false} RowsFillWindow(depth: nat, n: nat, w: nat)
    requires n % RS_BLOCK == 0 && WindowStart(depth, w) <= n
    ensures RowsInWindow(depth, n, w) * RS_BLOCK == Min(depth * RS_BLOCK, n - WindowStart(depth, w))
  {
    assert w * (depth * RS_BLOCK) == w * depth * RS_BLOCK;
  }

  lemma {:induction false} WindowOfSymbol(depth: nat, n: nat, j: nat)
    requires depth >= 1 && j < n && n % RS_BLOCK == 0
    ensures var c := j / RS_BLOCK;
            var rows := RowsInWindow(depth, n, WindowOf(depth, c));
            FilledAt(depth * RS_BLOCK, n, j) == rows * RS_BLOCK && RowOf(depth, c) < rows
  {
    SymbolCell(depth, j);
    hide WindowOf, RowOf;
    var w := WindowOf(depth, j / RS_BLOCK);
    RowsFillWindow(depth, n, w);
  }

  lemma {:induction false} PositionInWholeRows(rows: nat, row: nat, col: nat)
    requires row < rows && col < RS_BLOCK
    ensures PositionOf(rows * RS_BLOCK, row * RS_BLOCK + col) == col * rows + row
  {
    DivModUnique(rows * RS_BLOCK, RS_BLOCK, rows, 0);
    DivModUnique(row * RS_BLOCK + col, RS_BLOCK, row, col);
  }

  lemma {:induction false} PlaceInWindow(depth: nat, n: nat, j: nat)
    requires depth >= 1 && j < n
    ensures var w := j / (depth * RS_BLOCK);
            PlaceOf(depth, n, j)
            == WindowStart(depth, w) + PositionOf(FilledAt(depth * RS_BLOCK, n, j), j - WindowStart(depth, w))
  {
    var win := depth * RS_BLOCK;
    var filled := FilledAt(win, n, j);
    BlockPermutes(win, n);
    ReadOrderIsPerm(filled);
    hide IsPerm, Permutes, PositionOf;
    IndexOfReadOrder(filled, j - j / win * win);
  }

  // Symbol j of codeword c travels at column * rows + row of its window.
  lemma {:induction false} PlaceOfSymbol(depth: nat, n: nat, j: nat)
    requires depth >= 1 && j < n && n % RS_BLOCK == 0
    ensures var c := j / RS_BLOCK;
            var w := WindowOf(depth, c);
            PlaceOf(depth, n, j)
            == WindowStart(depth, w) + j % RS_BLOCK * RowsInWindow(depth, n, w) + RowOf(depth, c)
  {
    hide WindowOf, RowOf, RowsInWindow, PlaceOf, PositionOf, FilledAt;
    var c, col := j / RS_BLOCK, j % RS_BLOCK;
    var w, row := WindowOf(depth, c), RowOf(depth, c);
    var rows := RowsInWindow(depth, n, w);
    SymbolCell(depth, j);
    WindowOfSymbol(depth, n, j);
    PlaceInWindow(depth, n, j);
    hide WindowStart;
    assert j - WindowStart(depth, w) == row * RS_BLOCK + col;
    PositionInWholeRows(rows, row, col);
  }

  // Output place x of window w carries a symbol of codeword w * depth + k % rows,
  // k being its offset: the codewords take strict turns.
  lemma {:induction false} CodewordOfPlace(depth: nat, n: nat, x: nat)
    requires depth >= 1 && x < n && n % RS_BLOCK == 0
    ensures var c := SymbolAt(depth, n, x) / RS_BLOCK;
            var w := WindowOf(depth, c);
            && 0 <= x - WindowStart(depth, w) < depth * RS_BLOCK
            && RowsInWindow(depth, n, w) >= 1
            && c == w * depth + (x - WindowStart(depth, w)) % RowsInWindow(depth, n, w)
  {
    hide WindowOf, RowOf, RowsInWindow, PlaceOf, FilledAt, SymbolAt;
    var j := SymbolAt(depth, n, x);
    var c, col := j / RS_BLOCK, j % RS_BLOCK;
    var w, row := WindowOf(depth, c), RowOf(depth, c);
    var rows := RowsInWindow(depth, n, w);
    SymbolCell(depth, j);
    WindowOfSymbol(depth, n, j);
    PlaceOfSymbol(depth, n, j);
    OffsetInWindow(depth, n, w, rows, row, col);
    DivModUnique(col * rows + row, rows, col, row);
  }

  lemma {:induction false} OffsetInWindow(depth: nat, n: nat, w: nat, rows: nat, row: nat, col: nat)
    requires rows == RowsInWindow(depth, n, w) && row < rows && col < RS_BLOCK
    ensures col * rows + row < rows * RS_BLOCK <= depth * RS_BLOCK
  {
    MulMono(col + 1, RS_BLOCK, rows);
    assert (col + 1) * rows == col * rows + rows;
  }

  // ----- The bound -----

  // Points of stride r inside an interval of length b: at most ceil(b / r).
  lemma StrideCount(s: set<nat>, r: nat, b: nat, a: int)
    requires r >= 1
    requires forall k :: k in s ==> a <= k * r < a + b
    ensures |s| <= CeilDiv(b, r)
  {
    if s != {} {
      var m := LeastOf(s);
      var q := CeilDiv(b, r);
      assert (m + q) * r == m * r + q * r >= a + b;
      forall k | k in s ensures m <= k < m + q {
        if k >= m + q {
          MulMono(m + q, k, r);
        }
      }
      SubsetSize(s, Interval(m, q));
    }
  }

  // Seen from codeword c the wrong symbols are points of stride `rows` inside
  // the burst's share of the window.
  lemma {:induction false} CountInWindow(
    errors: set<nat>, c: nat, start: nat, win: nat, rows: nat, row: nat, lo: nat, hi: nat)
    requires rows >= 1
    requires forall j :: j in errors ==> j / RS_BLOCK == c
    requires forall j :: j in errors ==> Max(lo, start) <= start + j % RS_BLOCK * rows + row < Min(hi, start + win)
    ensures |errors| <= CeilDiv(Overlap(start, win, lo, hi), rows)
  {
    var share := Overlap(start, win, lo, hi);
    var from := Max(lo, start) + c * RS_BLOCK * rows - start - row;
    forall j | j in errors ensures from <= j * rows < from + share {
      assert j == c * RS_BLOCK + j % RS_BLOCK;
      assert j * rows == c * RS_BLOCK * rows + j % RS_BLOCK * rows;
    }
    StrideCount(errors, rows, share, from);
  }

  // A symbol of codeword c that is wrong after de-interleaving travelled inside
  // the burst, in the window of c.
  lemma {:induction false} ErrorStride(
    depth: nat, s: Bytes, sent: Bytes, z: Bytes, y: Bytes, lo: nat, hi: nat, w: nat, rows: nat, j: nat)
    requires depth >= 1 && |s| % RS_BLOCK == 0 && Carries(depth, s, sent) && Carries(depth, z, y)
    requires DamagedWithin(sent, y, lo, hi) && j < |s| && s[j] != z[j]
    requires w == WindowOf(depth, j / RS_BLOCK) && rows == RowsInWindow(depth, |s|, w)
    ensures var start, offset := WindowStart(depth, w), j % RS_BLOCK * rows + RowOf(depth, j / RS_BLOCK);
            lo <= start + offset < hi && offset < depth * RS_BLOCK
  {
    assert lo <= PlaceOf(depth, |s|, j) < hi;
    hide WindowOf, RowOf, RowsInWindow, PlaceOf, WindowStart, Carries, DamagedWithin;
    PlaceOfSymbol(depth, |s|, j);
    WindowOfSymbol(depth, |s|, j);
    OffsetInWindow(depth, |s|, w, rows, RowOf(depth, j / RS_BLOCK), j % RS_BLOCK);
  }

  lemma {:induction false} SpreadOverStreams(
    depth: nat, s: Bytes, sent: Bytes, z: Bytes, y: Bytes, lo: nat, hi: nat, c: nat, rows: nat)
    requires depth >= 1 && |s| % RS_BLOCK == 0 && Carries(depth, s, sent) && Carries(depth, z, y)
    requires DamagedWithin(sent, y, lo, hi) && |z| == |s|
    requires rows == RowsInWindow(depth, |s|, WindowOf(depth, c)) >= 1
    ensures |ErrorsIn(s, z, RS_BLOCK, c)| <= CeilDiv(ShareOf(depth, WindowOf(depth, c), lo, hi), rows)
  {
    hide WindowOf, RowOf, RowsInWindow, WindowStart, Carries, DamagedWithin, CeilDiv;
    var errors, w, row := ErrorsIn(s, z, RS_BLOCK, c), WindowOf(depth, c), RowOf(depth, c);
    var start := WindowStart(depth, w);
    forall j | j in errors
      ensures Max(lo, start) <= start + j % RS_BLOCK * rows + row < Min(hi, start + depth * RS_BLOCK)
    {
      ErrorStride(depth, s, sent, z, y, lo, hi, w, rows, j);
    }
    CountInWindow(errors, c, start, depth * RS_BLOCK, rows, row, lo, hi);
  }

  // A burst reaches a codeword of window w at most ceil(share / rows) times.
  lemma {:induction false} BurstSpread(block: BlockInterleaver, s: Bytes, y: Bytes, lo: nat, hi: nat, c: nat)
    requires block.Valid() && |s| % RS_BLOCK == 0 && c < |s| / RS_BLOCK
    requires DamagedWithin(Block(block).Interleave(s), y, lo, hi)
    ensures var w := WindowOf(block.depth, c);
            && RowsInWindow(block.depth, |s|, w) >= 1
            && |ErrorsIn(s, Block(block).Deinterleave(y), RS_BLOCK, c)|
               <= CeilDiv(ShareOf(block.depth, w, lo, hi), RowsInWindow(block.depth, |s|, w))
  {
    var sent, z := Block(block).Interleave(s), Block(block).Deinterleave(y);
    InterleaverCarries(block, s);
    InterleaverCarries(block, y);
    WindowOfSymbol(block.depth, |s|, c * RS_BLOCK);
    hide Interleaver.Interleave, Interleaver.Deinterleave, WindowOf, RowsInWindow, ErrorsIn, CeilDiv, Carries;
    SpreadOverStreams(block.depth, s, sent, z, y, lo, hi, c, RowsInWindow(block.depth, |s|, WindowOf(block.depth, c)));
  }

  lemma {:induction false} QuotientBound(depth: nat, w: nat, lo: nat, hi: nat, rows: nat, t: nat)
    requires rows >= 1 && hi <= lo + t * rows
    ensures CeilDiv(ShareOf(depth, w, lo, hi), rows) <= t
  {
    assert ShareOf(depth, w, lo, hi) <= t * rows;
    CeilDivMono(ShareOf(depth, w, lo, hi), t * rows, rows);
    CeilDivMultiple(t, rows);
  }

  // A burst no longer than t times the codewords of every window it could hit
  // leaves at most t errors in any codeword, also across window boundaries.
  lemma {:induction false} BurstBounded(
    block: BlockInterleaver, s: Bytes, y: Bytes, lo: nat, hi: nat, t: nat, c: nat)
    requires block.Valid() && |s| % RS_BLOCK == 0 && c < |s| / RS_BLOCK
    requires DamagedWithin(Block(block).Interleave(s), y, lo, hi)
    requires hi <= lo + t * RowsInWindow(block.depth, |s|, WindowOf(block.depth, c))
    ensures |ErrorsIn(s, Block(block).Deinterleave(y), RS_BLOCK, c)| <= t
  {
    BurstSpread(block, s, y, lo, hi, c);
    var w := WindowOf(block.depth, c);
    QuotientBound(block.depth, w, lo, hi, RowsInWindow(block.depth, |s|, w), t);
  }

  lemma {:induction false} RowsOfFullWindow(depth: nat, n: nat, c: nat)
    requires depth >= 1 && n % (depth * RS_BLOCK) == 0 && c < n / RS_BLOCK
    ensures RowsInWindow(depth, n, WindowOf(depth, c)) == depth && n % RS_BLOCK == 0
  {
    var win := depth * RS_BLOCK;
    var m, w := n / win, WindowOf(depth, c);
    DivModFacts(n, win);
    assert n == m * depth * RS_BLOCK;
    DivModUnique(n, RS_BLOCK, m * depth, 0);
    DivModFacts(c, depth);
    if w >= m {
      MulMono(m, w, depth);
    }
    MulMono(w + 1, m, depth);
    assert (w + 1) * depth == w * depth + depth;
  }

  // Whole windows only: a burst of at most `depth` symbols costs any codeword at
  // most one (t = 1), wherever it falls.
  lemma {:induction false} FullWindowsBurst(
    block: BlockInterleaver, s: Bytes, y: Bytes, lo: nat, hi: nat, t: nat, c: nat)
    requires block.Valid() && |s| % block.WindowLen() == 0 && c < |s| / RS_BLOCK
    requires DamagedWithin(Block(block).Interleave(s), y, lo, hi)
    requires hi <= lo + t * block.depth
    ensures |ErrorsIn(s, Block(block).Deinterleave(y), RS_BLOCK, c)| <= t
  {
    RowsOfFullWindow(block.depth, |s|, c);
    BurstBounded(block, s, y, lo, hi, t, c);
  }

  // ----- The bound is attained -----

  // Every symbol of [lo, hi) is wrong.
  ghost predicate DamagedThroughout(a: Bytes, b: Bytes, lo: nat, hi: nat) {
    |a| == |b| && hi <= |a| && forall x :: lo <= x < hi ==> a[x] != b[x]
  }

  // The codeword whose symbol is the first one of window w to be hit.
  function FirstHit(depth: nat, n: nat, w: nat, lo: nat): nat
    requires RowsInWindow(depth, n, w) >= 1
  {
    var start := WindowStart(depth, w);
    w * depth + (Max(lo, start) - start) % RowsInWindow(depth, n, w)
  }

  // ... and the column it has there.
  function FirstColumn(depth: nat, n: nat, w: nat, lo: nat): (col: nat)
    requires RowsInWindow(depth, n, w) >= 1
  {
    var start := WindowStart(depth, w);
    DivModFacts(Max(lo, start) - start, RowsInWindow(depth, n, w));
    (Max(lo, start) - start) / RowsInWindow(depth, n, w)
  }

  lemma {:induction false} HitWindowHasRows(depth: nat, n: nat, w: nat, lo: nat, hi: nat)
    requires depth >= 1 && n % RS_BLOCK == 0 && hi <= n && ShareOf(depth, w, lo, hi) > 0
    ensures RowsInWindow(depth, n, w) >= 1
  {
    assert w * (depth * RS_BLOCK) == w * depth * RS_BLOCK;
  }

  lemma {:induction false} HitCell(a: nat, rows: nat, k: nat)
    requires rows >= 1 && a + k * rows < rows * RS_BLOCK
    ensures (a / rows + k) * rows + a % rows == a + k * rows
    ensures 0 <= a % rows < rows && 0 <= a / rows && a / rows + k < RS_BLOCK
  {
    DivModFacts(a, rows);
    assert (a / rows + k) * rows == a / rows * rows + k * rows;
    if a / rows + k >= RS_BLOCK {
      MulMono(RS_BLOCK, a / rows + k, rows);
    }
  }

  // The cell of row `row` and column `col` in window w, as a stream symbol.
  lemma {:induction false} PlaceOfCell(depth: nat, n: nat, w: nat, rows: nat, row: nat, col: nat)
    requires depth >= 1 && n % RS_BLOCK == 0 && rows == RowsInWindow(depth, n, w) && row < rows && col < RS_BLOCK
    ensures var j := (w * depth + row) * RS_BLOCK + col;
            && j < n && j / RS_BLOCK == w * depth + row
            && PlaceOf(depth, n, j) == WindowStart(depth, w) + col * rows + row
  {
    var c := w * depth + row;
    DivModUnique(c, depth, w, row);
    DivModUnique(c * RS_BLOCK + col, RS_BLOCK, c, col);
    CellInStream(depth, n, w, rows, row, col);
    hide RowsInWindow, WindowStart, PlaceOf;
    PlaceOfSymbol(depth, n, c * RS_BLOCK + col);
  }

  // The columns of that codeword from there on travel `rows` places apart.
  lemma {:induction false} HitPlace(depth: nat, n: nat, w: nat, lo: nat, k: nat)
    requires depth >= 1 && n % RS_BLOCK == 0 && RowsInWindow(depth, n, w) >= 1
    requires Max(lo, WindowStart(depth, w)) + k * RowsInWindow(depth, n, w)
             < Min(n, WindowStart(depth, w) + depth * RS_BLOCK)
    ensures var c := FirstHit(depth, n, w, lo);
            var j := c * RS_BLOCK + FirstColumn(depth, n, w, lo) + k;
            && j < n && j / RS_BLOCK == c
            && PlaceOf(depth, n, j) == Max(lo, WindowStart(depth, w)) + k * RowsInWindow(depth, n, w)
  {
    var start, rows := WindowStart(depth, w), RowsInWindow(depth, n, w);
    var a := Max(lo, start) - start;
    RowsFillWindow(depth, n, w);
    hide WindowStart, RowsInWindow, PlaceOf;
    HitCell(a, rows, k);
    PlaceOfCell(depth, n, w, rows, a % rows, a / rows + k);
  }

  lemma {:induction false} CellInStream(depth: nat, n: nat, w: nat, rows: nat, row: nat, col: nat)
    requires rows == RowsInWindow(depth, n, w) && row < rows && col < RS_BLOCK
    ensures (w * depth + row) * RS_BLOCK + col < n
  {
  }

  lemma {:induction false} HitInBurst(start: nat, win: nat, lo: nat, hi: nat, rows: nat, k: nat)
    requires rows >= 1 && k < CeilDiv(Overlap(start, win, lo, hi), rows)
    ensures lo <= Max(lo, start) + k * rows < Min(hi, start + win)
  {
    MulMono(k, CeilDiv(Overlap(start, win, lo, hi), rows) - 1, rows);
  }

  // A symbol that travelled inside the burst is wrong.
  lemma {:induction false} HitIsError(
    depth: nat, s: Bytes, sent: Bytes, z: Bytes, y: Bytes, lo: nat, hi: nat, j: nat, x: nat)
    requires depth >= 1 && Carries(depth, s, sent) && Carries(depth, z, y) && |z| == |s|
    requires DamagedThroughout(sent, y, lo, hi) && j < |s| && x == PlaceOf(depth, |s|, j) && lo <= x < hi
    ensures j in ErrorsIn(s, z, RS_BLOCK, j / RS_BLOCK)
  {
  }

  lemma {:induction false} HitIsCounted(
    depth: nat, s: Bytes, sent: Bytes, z: Bytes, y: Bytes, lo: nat, hi: nat, w: nat, k: nat)
    requires depth >= 1 && |s| % RS_BLOCK == 0 && Carries(depth, s, sent) && Carries(depth, z, y) && |z| == |s|
    requires DamagedThroughout(sent, y, lo, hi) && RowsInWindow(depth, |s|, w) >= 1
    requires k < CeilDiv(ShareOf(depth, w, lo, hi), RowsInWindow(depth, |s|, w))
    ensures var c := FirstHit(depth, |s|, w, lo);
            && c < |s| / RS_BLOCK
            && c * RS_BLOCK + FirstColumn(depth, |s|, w, lo) + k in ErrorsIn(s, z, RS_BLOCK, c)
  {
    var rows, start := RowsInWindow(depth, |s|, w), WindowStart(depth, w);
    HitInBurst(start, depth * RS_BLOCK, lo, hi, rows, k);
    assert hi <= |s|;
    hide RowsInWindow, WindowStart, FirstHit, FirstColumn, CeilDiv, PlaceOf, Carries, DamagedThroughout, ErrorsIn;
    HitPlace(depth, |s|, w, lo, k);
    HitIsError(depth, s, sent, z, y, lo, hi,
               FirstHit(depth, |s|, w, lo) * RS_BLOCK + FirstColumn(depth, |s|, w, lo) + k, Max(lo, start) + k * rows);
  }

  lemma {:induction false} AttainedOverStreams(
    depth: nat, s: Bytes, sent: Bytes, z: Bytes, y: Bytes, lo: nat, hi: nat, w: nat)
    requires depth >= 1 && |s| % RS_BLOCK == 0 && Carries(depth, s, sent) && Carries(depth, z, y) && |z| == |s|
    requires DamagedThroughout(sent, y, lo, hi) && RowsInWindow(depth, |s|, w) >= 1
    requires ShareOf(depth, w, lo, hi) > 0
    ensures var c := FirstHit(depth, |s|, w, lo);
            && c < |s| / RS_BLOCK
            && |ErrorsIn(s, z, RS_BLOCK, c)| >= CeilDiv(ShareOf(depth, w, lo, hi), RowsInWindow(depth, |s|, w))
  {
    var q := CeilDiv(ShareOf(depth, w, lo, hi), RowsInWindow(depth, |s|, w));
    assert q > 0;
    hide RowsInWindow, ShareOf, FirstHit, FirstColumn, CeilDiv, Carries, DamagedThroughout, ErrorsIn;
    var c := FirstHit(depth, |s|, w, lo);
    var first, errors := c * RS_BLOCK + FirstColumn(depth, |s|, w, lo), ErrorsIn(s, z, RS_BLOCK, c);
    HitIsCounted(depth, s, sent, z, y, lo, hi, w, 0);
    forall j | j in Interval(first, q) ensures j in errors {
      HitIsCounted(depth, s, sent, z, y, lo, hi, w, j - first);
    }
    SubsetSize(Interval(first, q), errors);
  }

  // When the whole burst is wrong, the codeword first hit in window w has
  // ceil(share / rows) errors: the bound cannot be improved.
  lemma {:induction false} BurstAttained(block: BlockInterleaver, s: Bytes, y: Bytes, lo: nat, hi: nat, w: nat)
    requires block.Valid() && |s| % RS_BLOCK == 0 && ShareOf(block.depth, w, lo, hi) > 0
    requires DamagedThroughout(Block(block).Interleave(s), y, lo, hi)
    ensures RowsInWindow(block.depth, |s|, w) >= 1
    ensures var c := FirstHit(block.depth, |s|, w, lo);
            && c < |s| / RS_BLOCK
            && |ErrorsIn(s, Block(block).Deinterleave(y), RS_BLOCK, c)|
               >= CeilDiv(ShareOf(block.depth, w, lo, hi), RowsInWindow(block.depth, |s|, w))
  {
    var sent, z := Block(block).Interleave(s), Block(block).Deinterleave(y);
    InterleaverCarries(block, s);
    InterleaverCarries(block, y);
    HitWindowHasRows(block.depth, |s|, w, lo, hi);
    hide Interleaver.Interleave, Interleaver.Deinterleave, RowsInWindow, ErrorsIn, CeilDiv, ShareOf, FirstHit, Carries;
    AttainedOverStreams(block.depth, s, sent, z, y, lo, hi, w);
  }
}
